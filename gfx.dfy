/** The object stack of a graphics context (include/mipi_gfx.h and its
    successor src/mgl/mgl.h). Objects are kept by value in z-order: the
    last entry has the highest z and is drawn last. Callers address an
    object by the handle that pushing it returned. The mgl.h context adds
    a lock per object and a separate mutex on the shared frame buffer;
    since only one caller is modelled, a lock is either held by it or
    free, and waiting for another holder is an input. */
module GfxTable {
  import opened Common

  /** `MIPI_GFX_OBJ_BUFF_SZ` (include/mipi_gfx.h) and `MGL_GFX_STACK_SZ`
      (src/mgl/mgl.h): the number of objects a context holds. */
  const MIPI_GFX_OBJ_BUFF_SZ: nat := 256
  const MGL_GFX_STACK_SZ: nat := 256

  /** `MGL_FMBF_SZ`: bytes of the shared frame buffer. */
  const MGL_FMBF_SZ: nat := 2048

  /** `enum mgl_obj_type`. */
  datatype ObjKind =
    | Pt | Line | PolyLine | Arc | Circle | Triangle | Trapezoid
    | BezierCurve | GenPolygon

  /** A point of the shape; coordinates are opaque values here. */
  datatype Point = Point(x: nat, y: nat)

  /** `struct mgl_gfx_obj`: kind, fill flag and the points (their count is
      the length of the list). */
  datatype GfxObj = GfxObj(kind: ObjKind, fill: bool, pts: seq<Point>)

  /** One stack entry: the handle it was pushed under and its copy of
      the object. */
  datatype Slot = Slot(hdl: nat, obj: GfxObj)

  /** No handle appears twice. */
  ghost predicate NoDup(hs: seq<nat>) {
    hs == [] || (hs[0] !in hs[1..] && NoDup(hs[1..]))
  }

  /** The handles of a stack, bottom to top. */
  function Handles(t: seq<Slot>): (hs: seq<nat>)
    ensures |hs| == |t|
  {
    if t == [] then [] else [t[0].hdl] + Handles(t[1..])
  }

  lemma {:induction false} HandleAt(t: seq<Slot>, j: nat)
    requires j < |t|
    ensures Handles(t)[j] == t[j].hdl
  {
    if j > 0 {
      HandleAt(t[1..], j - 1);
    }
  }

  lemma {:induction false} HandlesAppend(a: seq<Slot>, b: seq<Slot>)
    ensures Handles(a + b) == Handles(a) + Handles(b)
  {
    if a != [] {
      assert (a + b)[1..] == a[1..] + b;
      HandlesAppend(a[1..], b);
    } else {
      assert a + b == b;
    }
  }

  /** A concatenation has no duplicate exactly when neither part has one
      and the parts share no handle. */
  lemma {:induction false} NoDupAppend(a: seq<nat>, b: seq<nat>)
    ensures NoDup(a + b) <==> NoDup(a) && NoDup(b) && (forall h :: h in a ==> h !in b)
  {
    if a != [] {
      assert (a + b)[1..] == a[1..] + b;
      NoDupAppend(a[1..], b);
      assert forall h :: h in a <==> h == a[0] || h in a[1..];
    } else {
      assert a + b == b;
    }
  }

  /** The object a handle addresses, if any: the stack seen as a map. */
  function Lookup(t: seq<Slot>, h: nat): Option<GfxObj>
  {
    if t == [] then None
    else if t[0].hdl == h then Some(t[0].obj)
    else Lookup(t[1..], h)
  }

  /** Lookup finds exactly the handles that are present. */
  lemma {:induction false} LookupPresent(t: seq<Slot>, h: nat)
    ensures Lookup(t, h).Some? <==> h in Handles(t)
  {
    if t != [] {
      LookupPresent(t[1..], h);
      assert Handles(t) == [t[0].hdl] + Handles(t[1..]);
    }
  }

  /** Insertion of a slot at z-position `z`. */
  function InsertAt(t: seq<Slot>, z: nat, s: Slot): (r: seq<Slot>)
    requires z <= |t|
    ensures |r| == |t| + 1 && r[z] == s
    ensures r[..z] == t[..z] && r[z + 1..] == t[z..]
  {
    t[..z] + [s] + t[z..]
  }

  /** The stack without the slot of handle `h`; the others keep their
      order. */
  function Remove(t: seq<Slot>, h: nat): (r: seq<Slot>)
    ensures |r| <= |t|
  {
    if t == [] then []
    else if t[0].hdl == h then Remove(t[1..], h)
    else [t[0]] + Remove(t[1..], h)
  }

  /** The stack with the object under `h` exchanged for `o`, in place. */
  function Replace(t: seq<Slot>, h: nat, o: GfxObj): seq<Slot>
  {
    if t == [] then []
    else (if t[0].hdl == h then [Slot(h, o)] else [t[0]]) + Replace(t[1..], h, o)
  }

  /** Inserting under a fresh handle adds exactly that handle at position
      `z` and keeps the handles free of duplicates. */
  lemma InsertFresh(t: seq<Slot>, z: nat, h: nat, o: GfxObj)
    requires z <= |t| && NoDup(Handles(t)) && h !in Handles(t)
    ensures Handles(InsertAt(t, z, Slot(h, o))) == Handles(t[..z]) + [h] + Handles(t[z..])
    ensures Handles(t) == Handles(t[..z]) + Handles(t[z..])
    ensures NoDup(Handles(InsertAt(t, z, Slot(h, o))))
  {
    SplitHandles(t, z);
    InsertHandles(t[..z], t[z..], Slot(h, o));
    NoDupInsert(Handles(t[..z]), Handles(t[z..]), h);
  }

  lemma SplitHandles(t: seq<Slot>, z: nat)
    requires z <= |t|
    ensures Handles(t) == Handles(t[..z]) + Handles(t[z..])
  {
    assert t[..z] + t[z..] == t;
    HandlesAppend(t[..z], t[z..]);
  }

  lemma InsertHandles(lo: seq<Slot>, hi: seq<Slot>, s: Slot)
    ensures Handles(lo + [s] + hi) == Handles(lo) + [s.hdl] + Handles(hi)
  {
    HandlesAppend(lo + [s], hi);
    HandlesAppend(lo, [s]);
  }

  lemma NoDupInsert(a: seq<nat>, b: seq<nat>, h: nat)
    requires NoDup(a + b) && h !in a + b
    ensures NoDup(a + [h] + b)
  {
    NoDupAppend(a, b);
    NoDupAppend([h], b);
    NoDupAppend(a, [h] + b);
    assert a + [h] + b == a + ([h] + b);
  }

  /** Lookup distributes over concatenation. */
  lemma {:induction false} LookupAppend(a: seq<Slot>, b: seq<Slot>, h: nat)
    ensures Lookup(a + b, h) == if Lookup(a, h).Some? then Lookup(a, h) else Lookup(b, h)
  {
    if a != [] {
      assert (a + b)[1..] == a[1..] + b;
      LookupAppend(a[1..], b, h);
    } else {
      assert a + b == b;
    }
  }

  /** After a push under a fresh handle, that handle addresses the pushed
      object and every other handle still addresses its own. */
  lemma LookupInsert(t: seq<Slot>, z: nat, h: nat, o: GfxObj, k: nat)
    requires z <= |t| && h !in Handles(t)
    ensures Lookup(InsertAt(t, z, Slot(h, o)), k) == if k == h then Some(o) else Lookup(t, k)
  {
    LookupAppend(t[..z], [Slot(h, o)] + t[z..], k);
    LookupAppend([Slot(h, o)], t[z..], k);
    LookupAppend(t[..z], t[z..], k);
    assert t[..z] + t[z..] == t;
    assert t[..z] + [Slot(h, o)] + t[z..] == t[..z] + ([Slot(h, o)] + t[z..]);
    if k == h {
      HandlesAppend(t[..z], t[z..]);
      LookupPresent(t[..z], h);
    }
  }

  /** Popping a handle removes exactly its object and leaves every other
      handle addressing its own. */
  lemma {:induction false} LookupRemove(t: seq<Slot>, h: nat, k: nat)
    ensures Lookup(Remove(t, h), k) == if k == h then None else Lookup(t, k)
  {
    if t != [] {
      LookupRemove(t[1..], h, k);
    }
  }

  /** Exchanging the object under a present handle makes it address the
      new object, and no other handle changes. */
  lemma {:induction false} LookupReplace(t: seq<Slot>, h: nat, o: GfxObj, k: nat)
    ensures Lookup(Replace(t, h, o), k) ==
      if k == h && Lookup(t, h).Some? then Some(o) else Lookup(t, k)
  {
    if t != [] {
      LookupReplace(t[1..], h, o, k);
    }
  }

  /** Exchange keeps every slot where it was: same handles, same z-order. */
  lemma {:induction false} ReplaceKeepsOrder(t: seq<Slot>, h: nat, o: GfxObj)
    ensures Handles(Replace(t, h, o)) == Handles(t)
  {
    if t != [] {
      ReplaceKeepsOrder(t[1..], h, o);
    }
  }

  /** Popping a handle that is absent leaves the stack as it was. */
  lemma {:induction false} RemoveAbsent(t: seq<Slot>, h: nat)
    requires h !in Handles(t)
    ensures Remove(t, h) == t
  {
    if t != [] {
      assert Handles(t) == [t[0].hdl] + Handles(t[1..]);
      RemoveAbsent(t[1..], h);
      assert [t[0]] + t[1..] == t;
    }
  }

  /** Popping the slot at position `i` removes that slot and nothing else:
      the objects below and above keep their relative z-order. */
  lemma {:induction false} RemoveAt(t: seq<Slot>, i: nat)
    requires NoDup(Handles(t)) && i < |t|
    ensures Remove(t, t[i].hdl) == t[..i] + t[i + 1..]
  {
    var h := t[i].hdl;
    assert Handles(t) == [t[0].hdl] + Handles(t[1..]);
    if i == 0 {
      RemoveAbsent(t[1..], h);
    } else {
      assert t[1..][i - 1] == t[i];
      RemoveAt(t[1..], i - 1);
      HandleAt(t[1..], i - 1);
      assert [t[0]] + (t[1..][..i - 1] + t[1..][i..]) == t[..i] + t[i + 1..];
    }
  }

  /** Popping the handle a push returned gives back the stack as it was
      before the push, wherever the object was placed. */
  lemma PushPopRoundTrip(t: seq<Slot>, z: nat, h: nat, o: GfxObj)
    requires z <= |t| && NoDup(Handles(t)) && h !in Handles(t)
    ensures Remove(InsertAt(t, z, Slot(h, o)), h) == t
  {
    var r := InsertAt(t, z, Slot(h, o));
    InsertFresh(t, z, h, o);
    RemoveAt(r, z);
    assert r[..z] + r[z + 1..] == t[..z] + t[z..];
    assert t[..z] + t[z..] == t;
  }

  /** After a pop, the handles are those present before except the popped
      one, still without duplicates. */
  lemma {:induction false} RemoveHandles(t: seq<Slot>, h: nat)
    requires NoDup(Handles(t))
    ensures NoDup(Handles(Remove(t, h)))
    ensures forall k :: k in Handles(Remove(t, h)) <==> k in Handles(t) && k != h
  {
    if t != [] {
      assert Handles(t) == [t[0].hdl] + Handles(t[1..]);
      RemoveHandles(t[1..], h);
      if t[0].hdl != h {
        var rest := Remove(t[1..], h);
        assert Handles(Remove(t, h)) == [t[0].hdl] + Handles(rest);
      }
    }
  }

  /** A graphics context's object stack, with the mgl.h object locks held
      by the caller and the frame-buffer mutex. */
  class GfxCtx {
    /** `gfx_objs` / `gfx_nodes`, bottom (lowest z) first. */
    var table: seq<Slot>
    /** The handle the next push returns. */
    var nextHdl: nat
    /** Handles whose object lock the caller holds. */
    var locks: set<nat>
    /** Whether the caller holds the shared frame buffer's mutex. */
    var fmbfHeld: bool

    ghost predicate Valid()
      reads this
    {
      |table| <= MIPI_GFX_OBJ_BUFF_SZ && NoDup(Handles(table)) &&
      (forall h :: h in Handles(table) ==> h < nextHdl) &&
      (forall h :: h in locks ==> h in Handles(table))
    }

    constructor ()
      ensures Valid() && table == [] && locks == {} && !fmbfHeld
    {
      table := [];
      nextHdl := 0;
      locks := {};
      fmbfHeld := false;
    }

    /** `mipi_gfx_push_obj`: stores a copy of `obj` at z-position `z`, or on
        top when `z` is -1, and returns its handle. A full stack or a
        position outside the stack gives -1 and changes nothing. */
    method Push(obj: GfxObj, z: int) returns (hdl: int)
      requires Valid()
      modifies this
      ensures Valid()
      ensures locks == old(locks) && fmbfHeld == old(fmbfHeld)
      ensures hdl == -1 <==> |old(table)| == MIPI_GFX_OBJ_BUFF_SZ || !(z == -1 || 0 <= z <= |old(table)|)
      ensures hdl == -1 ==> table == old(table) && nextHdl == old(nextHdl)
      ensures hdl != -1 ==> nextHdl == old(nextHdl) + 1
      ensures hdl != -1 ==>
        hdl == old(nextHdl) &&
        table == InsertAt(old(table), if z == -1 then |old(table)| else z, Slot(hdl, obj))
      ensures hdl != -1 && z == -1 ==> table[|table| - 1] == Slot(hdl, obj)
    {
      if |table| == MIPI_GFX_OBJ_BUFF_SZ || !(z == -1 || 0 <= z <= |table|) {
        return -1;
      }
      var pos: nat := if z == -1 then |table| else z;
      var h := nextHdl;
      InsertFresh(table, pos, h, obj);
      var t := InsertAt(table, pos, Slot(h, obj));
      forall k | k in Handles(t) ensures k < h + 1 {
        assert k in Handles(table) || k == h;
      }
      forall k | k in locks ensures k in Handles(t) {
        assert k in Handles(table[..pos]) || k in Handles(table[pos..]);
      }
      table := t;
      nextHdl := h + 1;
      hdl := h;
    }

    /** `mipi_gfx_pop_obj`: removes the object of handle `hdl`; the rest
        keep their z-order. An unknown handle changes nothing. */
    method Pop(hdl: nat)
      requires Valid()
      modifies this
      ensures Valid()
      ensures table == Remove(old(table), hdl)
      ensures locks == old(locks) - {hdl}
      ensures nextHdl == old(nextHdl) && fmbfHeld == old(fmbfHeld)
    {
      RemoveHandles(table, hdl);
      var t := Remove(table, hdl);
      forall k | k in locks - {hdl} ensures k in Handles(t) {
        assert k in Handles(table);
      }
      forall k | k in Handles(t) ensures k < nextHdl {
        assert k in Handles(table);
      }
      table := t;
      locks := locks - {hdl};
    }

    /** `mipi_gfx_xchange_obj`: the object under `hdl` is replaced by a copy
        of `obj`, at the same z-position. An unknown handle changes
        nothing. */
    method Exchange(hdl: nat, obj: GfxObj)
      requires Valid()
      modifies this
      ensures Valid()
      ensures table == Replace(old(table), hdl, obj)
      ensures locks == old(locks) && nextHdl == old(nextHdl) && fmbfHeld == old(fmbfHeld)
    {
      ReplaceKeepsOrder(table, hdl, obj);
      var t := Replace(table, hdl, obj);
      table := t;
    }

    /** `mipi_gfx_clear_screen` / `mgl_clear_screen`: every object goes. */
    method Clear()
      requires Valid()
      modifies this
      ensures Valid()
      ensures table == [] && locks == {}
      ensures nextHdl == old(nextHdl) && fmbfHeld == old(fmbfHeld)
    {
      table := [];
      locks := {};
    }

    /** `mgl_destroy_gfx_obj`: outside a tick callback the caller must hold
        the object's lock. The object and its lock go. */
    method Destroy(hdl: nat, inTickCb: bool)
      requires Valid()
      requires inTickCb || hdl in locks
      modifies this
      ensures Valid()
      ensures table == Remove(old(table), hdl)
      ensures locks == old(locks) - {hdl}
      ensures nextHdl == old(nextHdl) && fmbfHeld == old(fmbfHeld)
    {
      Pop(hdl);
    }

    /** `mgl_try_lock_gfx_obj`: succeeds at once when the object exists,
        this context does not hold its lock already and the object's mutex
        was free (`free`: the outcome of the mutex try-lock, which other
        tasks may hold); then it hands out a copy of the object. Never
        waits. */
    method TryLockObj(hdl: nat, free: bool) returns (ok: bool, out: Option<GfxObj>)
      requires Valid()
      modifies this
      ensures Valid()
      ensures ok <==> Lookup(table, hdl).Some? && hdl !in old(locks) && free
      ensures ok ==> locks == old(locks) + {hdl} && out == Lookup(table, hdl)
      ensures !ok ==> locks == old(locks) && out == None
      ensures table == old(table) && nextHdl == old(nextHdl) && fmbfHeld == old(fmbfHeld)
    {
      var found := Lookup(table, hdl);
      if found.None? || hdl in locks || !free {
        return false, None;
      }
      LookupPresent(table, hdl);
      locks := locks + {hdl};
      ok, out := true, found;
    }

    /** `mgl_lock_gfx_obj_timeout_ms`: like the try-lock, except that it
        waits up to `tm` ms for the object's mutex; `released` says whether
        the mutex was (or became) available in that time. A lock this
        context already holds is never granted again. */
    method LockObjTimeout(hdl: nat, tm: nat, released: bool) returns (ok: bool, out: Option<GfxObj>)
      requires Valid()
      modifies this
      ensures Valid()
      ensures ok <==> Lookup(table, hdl).Some? && hdl !in old(locks) && released
      ensures ok ==> locks == old(locks) + {hdl} && out == Lookup(table, hdl)
      ensures !ok ==> locks == old(locks) && out == None
      ensures table == old(table) && nextHdl == old(nextHdl) && fmbfHeld == old(fmbfHeld)
    {
      var found := Lookup(table, hdl);
      if found.None? || hdl in locks || !released {
        return false, None;
      }
      LookupPresent(table, hdl);
      locks := locks + {hdl};
      ok, out := true, found;
    }

    /** `mgl_unlock_gfx_obj`: releases the object's lock. */
    method UnlockObj(hdl: nat)
      requires Valid()
      modifies this
      ensures Valid()
      ensures locks == old(locks) - {hdl}
      ensures table == old(table) && nextHdl == old(nextHdl) && fmbfHeld == old(fmbfHeld)
    {
      locks := locks - {hdl};
    }

    /** `mgl_try_lock_fmbf`: the frame buffer's own mutex, which other
        tasks may hold (`free`: the outcome of the mutex try-lock). It is
        taken when this context does not hold it and the mutex was free;
        object locks are not touched. */
    method TryLockFmbf(free: bool) returns (ok: bool)
      requires Valid()
      modifies this
      ensures Valid()
      ensures ok <==> !old(fmbfHeld) && free
      ensures fmbfHeld == (old(fmbfHeld) || ok)
      ensures table == old(table) && locks == old(locks) && nextHdl == old(nextHdl)
    {
      ok := !fmbfHeld && free;
      if ok {
        fmbfHeld := true;
      }
    }

    /** `mgl_unlock_shared_fmbf`. */
    method UnlockFmbf()
      requires Valid()
      modifies this
      ensures Valid()
      ensures !fmbfHeld
      ensures table == old(table) && locks == old(locks) && nextHdl == old(nextHdl)
    {
      fmbfHeld := false;
    }
  }
}
