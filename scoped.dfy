/**
 * The ownership wrappers of the helpers header: `scoped_handle`, which closes an
 * OS handle, and the `scoped_ptr` family, which deletes a pointer. Closing and
 * deleting are OS and allocator side effects; each wrapper records them, in
 * order, in a log field (`closed`, `deleted`). A ghost history of every value
 * the wrapper was given lets the invariants say which of them were released.
 */
module Scoped {

  /** A Windows `HANDLE`; the value matters only for equality with `InvalidHandle`. */
  type Handle = int

  /** `INVALID_HANDLE_VALUE`, which is `(HANDLE)-1`. */
  const InvalidHandle: Handle := -1

  /** A pointer; 0 is `nullptr`. */
  type Ptr = nat

  const Null: Ptr := 0

  /** The handles of `hs` other than `InvalidHandle`, in order. */
  function NonInvalid(hs: seq<Handle>): (r: seq<Handle>)
    ensures |r| <= |hs|
    ensures forall h :: h in r <==> h in hs && h != InvalidHandle
  {
    if hs == [] then []
    else (if hs[0] != InvalidHandle then [hs[0]] else []) + NonInvalid(hs[1..])
  }

  /** The elements of `ps` other than `Null`, in order. */
  function NonNull(ps: seq<Ptr>): (r: seq<Ptr>)
    ensures |r| <= |ps|
    ensures forall p :: p in r <==> p in ps && p != Null
  {
    if ps == [] then []
    else (if ps[0] != Null then [ps[0]] else []) + NonNull(ps[1..])
  }

  lemma {:induction false} NonInvalidAppend(a: seq<Handle>, b: seq<Handle>)
    ensures NonInvalid(a + b) == NonInvalid(a) + NonInvalid(b)
  {
    if a == [] {
      assert a + b == b;
    } else {
      assert (a + b)[1..] == a[1..] + b;
      NonInvalidAppend(a[1..], b);
    }
  }

  lemma {:induction false} NonNullAppend(a: seq<Ptr>, b: seq<Ptr>)
    ensures NonNull(a + b) == NonNull(a) + NonNull(b)
  {
    if a == [] {
      assert a + b == b;
    } else {
      assert (a + b)[1..] == a[1..] + b;
      NonNullAppend(a[1..], b);
    }
  }

  // ---------------------------------------------------------------------------
  // scoped_handle

  class ScopedHandle {
    /** `_handle`. */
    var handle: Handle
    /** The `CloseHandle` calls made through this wrapper, in order. */
    var closed: seq<Handle>
    /** Every handle the wrapper was constructed or reset with, in order. */
    ghost var taken: seq<Handle>

    /** What the wrapper still owns: its handle, unless it is `InvalidHandle`. */
    function Held(): seq<Handle>
      reads this
    {
      if handle != InvalidHandle then [handle] else []
    }

    /**
     * Ownership is exact: every valid handle the wrapper was given has been
     * closed once, in the order given, or is the one it still holds.
     */
    ghost predicate Valid()
      reads this
    {
      closed + Held() == NonInvalid(taken)
    }

    /** `explicit scoped_handle(HANDLE handle = INVALID_HANDLE_VALUE)`. */
    constructor(h: Handle := InvalidHandle)
      ensures handle == h && closed == [] && taken == [h]
      ensures Valid()
    {
      handle := h;
      closed := [];
      taken := [h];
      assert NonInvalid([h]) == (if h != InvalidHandle then [h] else []) + NonInvalid([]);
    }

    /**
     * `safe_close_handle()`: closes a held handle and marks the wrapper empty, so
     * that a second call closes nothing.
     */
    method SafeCloseHandle()
      requires Valid()
      modifies this
      ensures handle == InvalidHandle
      ensures closed == old(closed) + old(Held())
      ensures taken == old(taken)
      ensures Valid()
    {
      if handle != InvalidHandle {
        closed := closed + [handle];
        handle := InvalidHandle;
      }
    }

    /** `reset(HANDLE handle = INVALID_HANDLE_VALUE)`: close what is held, then hold `h`. */
    method Reset(h: Handle := InvalidHandle)
      requires Valid()
      modifies this
      ensures handle == h
      ensures closed == old(closed) + old(Held())
      ensures taken == old(taken) + [h]
      ensures Valid()
    {
      SafeCloseHandle();
      handle := h;
      taken := taken + [h];
      NonInvalidAppend(old(taken), [h]);
      assert NonInvalid([h]) == (if h != InvalidHandle then [h] else []) + NonInvalid([]);
    }

    /** `~scoped_handle()`: close what is held. Nothing is owned afterwards. */
    method Dispose()
      requires Valid()
      modifies this
      ensures handle == InvalidHandle && Held() == []
      ensures closed == old(closed) + old(Held())
      ensures taken == old(taken)
      ensures closed == NonInvalid(taken)
    {
      SafeCloseHandle();
    }
  }

  /**
   * A wrapper given `h`, closed explicitly and then destroyed, closes `h` once and
   * only if it is a real handle.
   */
  method CloseThenDispose(h: Handle) returns (closed: seq<Handle>)
    ensures closed == (if h != InvalidHandle then [h] else [])
  {
    var sh := new ScopedHandle(h);
    sh.SafeCloseHandle();
    sh.SafeCloseHandle();
    sh.Dispose();
    closed := sh.closed;
  }

  /** A default wrapper holds `INVALID_HANDLE_VALUE`, and destroying it closes nothing. */
  method DefaultClosesNothing() returns (held: Handle, closed: seq<Handle>)
    ensures held == InvalidHandle
    ensures closed == []
  {
    var sh := new ScopedHandle();
    held := sh.handle;
    sh.Dispose();
    closed := sh.closed;
  }

  /**
   * Reset to `h2`, then destroyed: `h1` is closed first, then `h2`, each only if it
   * is a real handle.
   */
  method ResetThenDispose(h1: Handle, h2: Handle) returns (closed: seq<Handle>)
    ensures closed == NonInvalid([h1, h2])
  {
    var sh := new ScopedHandle(h1);
    sh.Reset(h2);
    sh.Dispose();
    closed := sh.closed;
  }

  // ---------------------------------------------------------------------------
  // scoped_ptr<T> and scoped_ptr<void>: reset overwrites without deleting

  /**
   * `scoped_ptr<T>` and its `scoped_ptr<void>` specialisation, which behave alike
   * on `_ptr`: `reset` forgets the old pointer without deleting it.
   */
  class ScopedPtr {
    /** `_ptr`. */
    var ptr: Ptr
    /** The `delete` expressions evaluated by this wrapper, in order. */
    var deleted: seq<Ptr>
    /** Every pointer the wrapper was constructed or reset with, in order. */
    ghost var taken: seq<Ptr>

    function Held(): seq<Ptr>
      reads this
    {
      if ptr != Null then [ptr] else []
    }

    /**
     * Only the last `_ptr` is ever deleted: reset drops the old one, so at
     * most one pointer (the last one) reaches `delete`.
     */
    ghost predicate Valid()
      reads this
    {
      |taken| >= 1 && ptr == taken[|taken| - 1] && deleted == []
    }

    /** `explicit scoped_ptr(T* ptr = nullptr)`. */
    constructor(p: Ptr := Null)
      ensures ptr == p && deleted == [] && taken == [p]
      ensures Valid()
    {
      ptr := p;
      deleted := [];
      taken := [p];
    }

    /** `reset(T* ptr = nullptr)`: replace `_ptr`; the old value is not deleted. */
    method Reset(p: Ptr := Null)
      requires Valid()
      modifies this
      ensures ptr == p
      ensures deleted == old(deleted)
      ensures taken == old(taken) + [p]
      ensures Valid()
    {
      ptr := p;
      taken := taken + [p];
    }

    /** `~scoped_ptr()`: delete `_ptr` if it is not null. */
    method Dispose()
      requires Valid()
      modifies this
      ensures ptr == old(ptr)
      ensures deleted == old(Held())
      ensures taken == old(taken)
      ensures deleted == NonNull([ptr])
    {
      if ptr != Null {
        deleted := deleted + [ptr];
      }
      assert NonNull([ptr]) == (if ptr != Null then [ptr] else []) + NonNull([]);
    }
  }

  /**
   * Reset from `p` to `q`, then destroyed: only `q` is deleted, so a non-null `p`
   * other than `q` leaks.
   */
  method ResetLeaks(p: Ptr, q: Ptr) returns (deleted: seq<Ptr>)
    ensures deleted == NonNull([q])
    ensures p != Null && p != q ==> p !in deleted
  {
    var sp := new ScopedPtr(p);
    sp.Reset(q);
    sp.Dispose();
    deleted := sp.deleted;
  }

  // ---------------------------------------------------------------------------
  // scoped_ptr<void*>: reset deletes first

  /** `scoped_ptr<void*>`, whose `reset` deletes a non-null old pointer before replacing it. */
  class ScopedPtrToPtr {
    /** `_ptr`. */
    var ptr: Ptr
    /** The `delete` expressions evaluated by this wrapper, in order. */
    var deleted: seq<Ptr>
    /** Every pointer the wrapper was constructed or reset with, in order. */
    ghost var taken: seq<Ptr>

    function Held(): seq<Ptr>
      reads this
    {
      if ptr != Null then [ptr] else []
    }

    /**
     * Ownership is exact: every non-null pointer the wrapper was given has been
     * deleted once, in the order given, or is the one it still holds.
     */
    ghost predicate Valid()
      reads this
    {
      deleted + Held() == NonNull(taken)
    }

    /** `explicit scoped_ptr(void* ptr = nullptr)`. */
    constructor(p: Ptr := Null)
      ensures ptr == p && deleted == [] && taken == [p]
      ensures Valid()
    {
      ptr := p;
      deleted := [];
      taken := [p];
      assert NonNull([p]) == (if p != Null then [p] else []) + NonNull([]);
    }

    /** `reset(void* ptr = nullptr)`: delete a non-null pointer in hand, then hold `p`. */
    method Reset(p: Ptr := Null)
      requires Valid()
      modifies this
      ensures ptr == p
      ensures deleted == old(deleted) + old(Held())
      ensures taken == old(taken) + [p]
      ensures Valid()
    {
      if ptr != Null {
        deleted := deleted + [ptr];
      }
      ptr := p;
      taken := taken + [p];
      NonNullAppend(old(taken), [p]);
      assert NonNull([p]) == (if p != Null then [p] else []) + NonNull([]);
    }

    /** `~scoped_ptr()`: delete `_ptr` if it is not null. */
    method Dispose()
      requires Valid()
      modifies this
      ensures ptr == old(ptr)
      ensures deleted == old(deleted) + old(Held())
      ensures taken == old(taken)
      ensures deleted == NonNull(taken)
    {
      if ptr != Null {
        deleted := deleted + [ptr];
      }
    }
  }

  /** Reset from `p` to `q`, then destroyed: `p` is deleted first, then `q`, each if non-null. */
  method ResetDeletes(p: Ptr, q: Ptr) returns (deleted: seq<Ptr>)
    ensures deleted == NonNull([p, q])
  {
    var sp := new ScopedPtrToPtr(p);
    sp.Reset(q);
    sp.Dispose();
    deleted := sp.deleted;
  }
}
