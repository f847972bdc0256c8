/**
 Path frames: reference-counted nodes linked to their parents, recycled through a
 capped free list that is chained through the same parent link.
 */
module PathFrames {
  import opened Values

  /** A path segment: a field name, a list index, or none. */
  datatype Key = NoKey | Index(i: int) | Name(name: string)

  datatype Frame = Frame(refcount: nat, parent: Option<nat>, key: Key)

  type Memory = map<nat, Frame>

  /** How many released frames are kept for reuse. */
  const POOL_MAX: nat := 1024

  /** The live frames whose parent is `f`. */
  ghost function Children(frames: Memory, live: set<nat>, f: nat): set<nat> {
    set c | c in live && c in frames && frames[c].parent == Some(f)
  }

  /** The references to `f`: one for each holder and one for each live child. */
  ghost function Owners(frames: Memory, live: set<nat>, holders: multiset<nat>, f: nat): nat {
    holders[f] + |Children(frames, live, f)|
  }

  /** The free list from `head`, through the parent links, visits exactly `pool`. */
  ghost predicate Chain(frames: Memory, head: Option<nat>, pool: set<nat>)
    decreases |pool|
  {
    if pool == {} then head.None?
    else
      && head.Some? && head.value in pool && head.value in frames
      && Chain(frames, frames[head.value].parent, pool - {head.value})
  }

  /** The free list only depends on the frames in it. */
  lemma {:induction false} ChainKept(frames: Memory, frames': Memory, head: Option<nat>, pool: set<nat>)
    requires Chain(frames, head, pool)
    requires forall f :: f in pool ==> f in frames' && (f in frames ==> frames'[f] == frames[f])
    ensures Chain(frames', head, pool)
    decreases |pool|
  {
    if pool != {} {
      ChainKept(frames, frames', frames[head.value].parent, pool - {head.value});
    }
  }

  /** Live frames have live parents, along which depth decreases. */
  ghost predicate Linked(frames: Memory, live: set<nat>, depth: map<nat, nat>) {
    && live <= frames.Keys && live <= depth.Keys
    && forall f {:trigger frames[f].parent} :: f in live && frames[f].parent.Some? ==>
         frames[f].parent.value in live && depth[frames[f].parent.value] < depth[f]
  }

  /** Memory is the live frames, the free list and the `loose` frames, which do not meet. */
  ghost predicate Partition(frames: Memory, live: set<nat>, pool: set<nat>, loose: set<nat>) {
    && (forall f :: f in frames <==> f in live || f in pool || f in loose)
    && (forall f :: f in pool ==> f !in live && f !in loose)
    && forall f :: f in loose ==> f !in live
  }

  /** Live frames, free list and links are as they should be. */
  ghost predicate Shaped(frames: Memory, live: set<nat>, depth: map<nat, nat>, head: Option<nat>, pool: set<nat>,
                         loose: set<nat>) {
    Partition(frames, live, pool, loose) && Chain(frames, head, pool) && Linked(frames, live, depth)
  }

  /** The counts are exact, except that `excess` (if any) is counted once too often. */
  ghost predicate Counted(frames: Memory, live: set<nat>, holders: multiset<nat>, excess: Option<nat>)
    requires live <= frames.Keys
  {
    && (forall f :: f in holders ==> f in live)
    && (excess.Some? ==> excess.value in live)
    && forall f {:trigger frames[f].refcount} :: f in live ==>
         && frames[f].refcount > 0
         && frames[f].refcount == Owners(frames, live, holders, f) + (if excess == Some(f) then 1 else 0)
  }

  /** Frames live before and after keep their parent and key. */
  ghost predicate PathsKept(frames: Memory, live: set<nat>, frames': Memory, live': set<nat>) {
    forall f {:trigger frames'[f].parent} {:trigger frames'[f].key} :: f in live && f in live' ==>
      f in frames && f in frames' && frames'[f].parent == frames[f].parent && frames'[f].key == frames[f].key
  }

  // ----- What counted frames mean -----

  /** An ancestor of `f`, or `f` itself, along the parent links. */
  ghost predicate Above(frames: Memory, live: set<nat>, depth: map<nat, nat>, a: nat, f: nat)
    requires Linked(frames, live, depth) && f in live
    decreases depth[f]
  {
    a == f || (frames[f].parent.Some? && Above(frames, live, depth, a, frames[f].parent.value))
  }

  ghost predicate HeldAbove(frames: Memory, live: set<nat>, depth: map<nat, nat>, holders: multiset<nat>, f: nat)
    requires Linked(frames, live, depth)
  {
    exists h :: h in live && h in holders && Above(frames, live, depth, f, h)
  }

  ghost function Deeper(live: set<nat>, depth: map<nat, nat>, n: nat): set<nat>
    requires live <= depth.Keys
  {
    set g | g in live && depth[g] > n
  }

  /** Every live frame is on the path of some holder. */
  lemma {:induction false} LiveFramesAreHeld(frames: Memory, live: set<nat>, depth: map<nat, nat>,
                                             holders: multiset<nat>, f: nat)
    requires Linked(frames, live, depth) && Counted(frames, live, holders, None) && f in live
    ensures HeldAbove(frames, live, depth, holders, f)
    decreases Deeper(live, depth, depth[f])
  {
    if f in holders {
      assert Above(frames, live, depth, f, f);
    } else {
      assert |Children(frames, live, f)| > 0;
      var c :| c in Children(frames, live, f);
      assert c in Deeper(live, depth, depth[f]) && c !in Deeper(live, depth, depth[c]);
      LiveFramesAreHeld(frames, live, depth, holders, c);
      var h :| h in live && h in holders && Above(frames, live, depth, c, h);
      AboveParent(frames, live, depth, f, c, h);
    }
  }

  lemma {:induction false} AboveParent(frames: Memory, live: set<nat>, depth: map<nat, nat>, p: nat, c: nat, h: nat)
    requires Linked(frames, live, depth) && h in live && c in live && frames[c].parent == Some(p)
    requires Above(frames, live, depth, c, h)
    ensures Above(frames, live, depth, p, h)
    decreases depth[h]
  {
    if c == h {
      assert Above(frames, live, depth, p, p);
    } else {
      AboveParent(frames, live, depth, p, c, frames[h].parent.value);
    }
  }

  /** No frame is live exactly when there are no holders. */
  lemma NoneLiveIffNoneHeld(frames: Memory, live: set<nat>, depth: map<nat, nat>, holders: multiset<nat>)
    requires Linked(frames, live, depth) && Counted(frames, live, holders, None)
    ensures live == {} <==> holders == multiset{}
  {
    if f :| f in live {
      LiveFramesAreHeld(frames, live, depth, holders, f);
    }
    if live == {} {
      assert forall f :: f !in holders;
    }
  }

  /** The live frames are as before, apart from one more count for `more`. */
  ghost predicate LiveKept(frames: Memory, live: set<nat>, frames': Memory, more: Option<nat>) {
    && live <= frames.Keys && live <= frames'.Keys
    && forall g {:trigger frames'[g]} :: g in live ==>
      frames'[g] == frames[g].(refcount := frames[g].refcount + (if more == Some(g) then 1 else 0))
  }

  // ----- Counting when frames come and go -----

  lemma ChildrenSame(frames: Memory, live: set<nat>, frames': Memory, f: nat)
    requires live <= frames.Keys && live <= frames'.Keys
    requires forall c :: c in live ==> frames'[c].parent == frames[c].parent
    ensures Children(frames', live, f) == Children(frames, live, f)
  {
  }

  /** Adding a frame with parent `p` adds one child to `p` and changes no other count. */
  lemma ChildrenAfterBirth(frames: Memory, live: set<nat>, f: nat, frame: Frame, frames': Memory, g: nat)
    requires live <= frames.Keys && f !in live
    requires f in frames' && frames'[f].parent == frame.parent && live <= frames'.Keys
    requires forall c :: c in live ==> frames'[c].parent == frames[c].parent
    ensures |Children(frames', live + {f}, g)|
            == |Children(frames, live, g)| + (if frame.parent == Some(g) then 1 else 0)
  {
    if frame.parent == Some(g) {
      assert Children(frames', live + {f}, g) == Children(frames, live, g) + {f};
    } else {
      assert Children(frames', live + {f}, g) == Children(frames, live, g);
    }
  }

  lemma ChildrenAfterDeath(frames: Memory, live: set<nat>, f: nat, frames': Memory, g: nat)
    requires live <= frames.Keys && f in live && live - {f} <= frames'.Keys
    requires forall c :: c in live && c != f ==> frames'[c].parent == frames[c].parent
    ensures |Children(frames', live - {f}, g)|
            == |Children(frames, live, g)| - (if frames[f].parent == Some(g) then 1 else 0)
  {
    var before, after := Children(frames, live, g), Children(frames', live - {f}, g);
    if frames[f].parent == Some(g) {
      assert f in before && after == before - {f};
    } else {
      assert after == before;
    }
  }

  // ----- The effect of each update on the counts -----

  /** The count of a live frame does not matter to the shape. */
  lemma ShapeAfterCount(frames: Memory, live: set<nat>, depth: map<nat, nat>, head: Option<nat>, pool: set<nat>, f: nat,
                        n: nat)
    requires Shaped(frames, live, depth, head, pool, {}) && f in live
    ensures Shaped(frames[f := frames[f].(refcount := n)], live, depth, head, pool, {})
  {
    ChainKept(frames, frames[f := frames[f].(refcount := n)], head, pool);
  }

  /** A loose frame becomes live below its parent. */
  lemma ShapeAfterBirth(frames: Memory, live: set<nat>, depth: map<nat, nat>, head: Option<nat>, pool: set<nat>, f: nat,
                        frame: Frame)
    requires Shaped(frames, live, depth, head, pool, {f})
    requires frame.parent.Some? ==> frame.parent.value in live
    ensures Shaped(frames[f := frame], live + {f}, depth[f := DepthBelow(frame.parent, depth)], head, pool, {})
  {
    ChainKept(frames, frames[f := frame], head, pool);
  }

  function DepthBelow(parent: Option<nat>, depth: map<nat, nat>): nat
  {
    if parent.Some? && parent.value in depth then depth[parent.value] + 1 else 0
  }

  /** A live frame without live children becomes loose. */
  lemma ShapeAfterDeath(frames: Memory, live: set<nat>, depth: map<nat, nat>, head: Option<nat>, pool: set<nat>, f: nat)
    requires Shaped(frames, live, depth, head, pool, {}) && f in live && Children(frames, live, f) == {}
    ensures Shaped(frames, live - {f}, depth, head, pool, {f})
  {
    forall g | g in live - {f} ensures frames[g].parent != Some(f) {
      assert g !in Children(frames, live, f);
    }
  }

  /** The first frame of the free list comes off it. */
  lemma ShapeAfterTake(frames: Memory, live: set<nat>, depth: map<nat, nat>, head: Option<nat>, pool: set<nat>,
                       frame: Frame)
    requires Shaped(frames, live, depth, head, pool, {}) && head.Some?
    ensures head.value in pool && head.value in frames && head.value !in live
    ensures Shaped(frames[head.value := frame], live, depth, frames[head.value].parent, pool - {head.value},
                   {head.value})
  {
    ChainKept(frames, frames[head.value := frame], frames[head.value].parent, pool - {head.value});
  }

  /** Unused memory becomes a loose frame. */
  lemma ShapeAfterAllocation(frames: Memory, live: set<nat>, depth: map<nat, nat>, head: Option<nat>, pool: set<nat>,
                             f: nat, frame: Frame)
    requires Shaped(frames, live, depth, head, pool, {}) && f !in frames
    ensures f !in live && Shaped(frames[f := frame], live, depth, head, pool, {f})
  {
    ChainKept(frames, frames[f := frame], head, pool);
  }

  /** A loose frame goes on the free list. */
  lemma ShapeAfterPut(frames: Memory, live: set<nat>, depth: map<nat, nat>, head: Option<nat>, pool: set<nat>, f: nat)
    requires Shaped(frames, live, depth, head, pool, {f})
    ensures f !in pool && f in frames
    ensures Shaped(frames[f := frames[f].(parent := head)], live, depth, Some(f), pool + {f}, {})
    ensures LiveKept(frames, live, frames[f := frames[f].(parent := head)], None)
  {
    var frames' := frames[f := frames[f].(parent := head)];
    ChainKept(frames, frames', head, pool);
    assert pool + {f} - {f} == pool;
    assert Chain(frames', Some(f), pool + {f});
  }

  /** A loose frame is freed. */
  lemma ShapeAfterFree(frames: Memory, live: set<nat>, depth: map<nat, nat>, head: Option<nat>, pool: set<nat>, f: nat)
    requires Shaped(frames, live, depth, head, pool, {f})
    ensures Shaped(frames - {f}, live, depth, head, pool, {}) && LiveKept(frames, live, frames - {f}, None)
  {
    ChainKept(frames, frames - {f}, head, pool);
  }

  /** A new frame below `parent`: the caller holds it, and it counts for its parent. */
  lemma CountedAfterBirth(frames: Memory, live: set<nat>, holders: multiset<nat>, f: nat, parent: Option<nat>,
                          frames': Memory)
    requires live <= frames.Keys && Counted(frames, live, holders, None) && f !in live
    requires forall g {:trigger frames[g].parent} :: g in live ==> frames[g].parent != Some(f)
    requires parent.Some? ==> parent.value in live
    requires f in frames' && frames'[f].refcount == 1 && frames'[f].parent == parent
    requires LiveKept(frames, live, frames', parent)
    ensures Counted(frames', live + {f}, holders + multiset{f}, None)
  {
    forall g | g in live + {f} ensures frames'[g].refcount == Owners(frames', live + {f}, holders + multiset{f}, g) {
      ChildrenAfterBirth(frames, live, f, frames'[f], frames', g);
      if g == f {
        assert Children(frames, live, f) == {};
      }
    }
  }

  /** One count more or less, with the holder it stands for. */
  lemma CountedAfterChange(frames: Memory, live: set<nat>, holders: multiset<nat>, excess: Option<nat>,
                           frames': Memory, holders': multiset<nat>)
    requires live <= frames.Keys && Counted(frames, live, holders, excess)
    requires forall g :: g in holders' ==> g in live
    requires forall g :: g in live ==>
               g in frames' && frames'[g].parent == frames[g].parent && frames'[g].refcount > 0 &&
               frames'[g].refcount - holders'[g]
               == frames[g].refcount - holders[g] - (if excess == Some(g) then 1 else 0)
    ensures Counted(frames', live, holders', None)
  {
    forall g | g in live ensures frames'[g].refcount == Owners(frames', live, holders', g) {
      ChildrenSame(frames, live, frames', g);
    }
  }

  /** A reference more to `f`, held by the caller. */
  lemma CountedAfterShare(frames: Memory, live: set<nat>, holders: multiset<nat>, f: nat, frames': Memory)
    requires live <= frames.Keys && Counted(frames, live, holders, None) && f in live
    requires LiveKept(frames, live, frames', Some(f))
    ensures live <= frames'.Keys && Counted(frames', live, holders + multiset{f}, None)
  {
    CountedAfterChange(frames, live, holders, None, frames', holders + multiset{f});
  }

  /** The count too many of `f` goes, and is not its last. */
  lemma CountedAfterLowering(frames: Memory, live: set<nat>, holders: multiset<nat>, f: nat)
    requires live <= frames.Keys && Counted(frames, live, holders, Some(f)) && frames[f].refcount > 1
    ensures Counted(frames[f := frames[f].(refcount := frames[f].refcount - 1)], live, holders, None)
  {
    CountedAfterChange(frames, live, holders, Some(f), frames[f := frames[f].(refcount := frames[f].refcount - 1)],
                       holders);
  }

  lemma CountsKept(frames: Memory, frames': Memory, live: set<nat>, holders: multiset<nat>, excess: Option<nat>)
    requires live <= frames.Keys && Counted(frames, live, holders, excess)
    requires LiveKept(frames, live, frames', None)
    ensures live <= frames'.Keys && Counted(frames', live, holders, excess)
  {
    forall g | g in live ensures Children(frames', live, g) == Children(frames, live, g) {
      ChildrenSame(frames, live, frames', g);
    }
  }

  /** A frame that loses its last reference has no children, and leaves its parent
      counted once too often. */
  lemma CountedAfterDeath(frames: Memory, live: set<nat>, depth: map<nat, nat>, holders: multiset<nat>, f: nat,
                          frames': Memory)
    requires Linked(frames, live, depth) && Counted(frames, live, holders, Some(f)) && frames[f].refcount == 1
    requires frames' == frames[f := frames[f].(refcount := 0)]
    ensures Children(frames', live, f) == {}
    ensures Counted(frames', live - {f}, holders, frames[f].parent)
  {
    assert holders[f] == 0 && Children(frames, live, f) == {};
    ChildrenSame(frames, live, frames', f);
    forall g | g in live - {f}
      ensures frames'[g].refcount
              == Owners(frames', live - {f}, holders, g) + (if frames[f].parent == Some(g) then 1 else 0)
    {
      ChildrenAfterDeath(frames, live, f, frames', g);
    }
  }

  /** Frame memory: live frames, and released ones on the free list. */
  class FramePool {
    var frames: Memory
    var head: Option<nat>
    var poolCount: nat
    var liveCount: int
    var next: nat
    ghost var live: set<nat>
    ghost var pool: set<nat>
    ghost var holders: multiset<nat>
    ghost var depth: map<nat, nat>

    constructor ()
      ensures Valid() && live == {} && holders == multiset{} && liveCount == 0
    {
      frames, head, poolCount, liveCount, next := map[], None, 0, 0, 0;
      live, pool, holders, depth := {}, {}, multiset{}, map[];
    }

    /** Memory is in shape with `loose` neither live nor free, the free list is within
        its cap, and the counters are right. */
    ghost predicate Pooled(loose: set<nat>)
      reads this
    {
      && Shaped(frames, live, depth, head, pool, loose)
      && poolCount == |pool| <= 1024
      && liveCount == |live|
      && forall f :: f in frames ==> f < next
    }

    ghost predicate Valid()
      reads this
    {
      Pooled({}) && Counted(frames, live, holders, None)
    }

    /** A cleared frame from the free list, or a new one; it is not yet live. */
    method Take() returns (f: nat)
      requires Pooled({})
      modifies this`frames, this`head, this`poolCount, this`next, this`pool
      ensures Pooled({f}) && frames[f] == Frame(0, None, NoKey)
      ensures f !in live && LiveKept(old(frames), live, frames, None)
      ensures if old(pool) == {} then f !in old(frames) else old(head) == Some(f) && pool == old(pool) - {f}
    {
      ghost var pool0 := pool;
      if head.Some? {
        ShapeAfterTake(frames, live, depth, head, pool, Frame(0, None, NoKey));
        f := head.value;
        head := frames[f].parent;
        poolCount := poolCount - 1;
        pool := pool - {f};
        assert |pool0| == |pool| + 1;
      } else {
        ShapeAfterAllocation(frames, live, depth, head, pool, next, Frame(0, None, NoKey));
        f := next;
        next := next + 1;
      }
      frames := frames[f := Frame(0, None, NoKey)];
    }

    /** A new frame below `parent`, held by the caller. */
    method New(parent: Option<nat>, key: Key) returns (f: nat)
      requires Valid() && (parent.Some? ==> parent.value in live)
      modifies this
      ensures Valid() && live == old(live) + {f} && f !in old(live) && holders == old(holders) + multiset{f}
      ensures frames[f].parent == parent && frames[f].key == key
      ensures PathsKept(old(frames), old(live), frames, live)
      ensures liveCount == old(liveCount) + 1
    {
      ghost var frames0, live0, holders0 := frames, live, holders;
      f := Place(parent, key);
      CountedAfterBirth(frames0, live0, holders0, f, parent, frames);
      holders := holders0 + multiset{f};
    }

    /** Takes a frame, fills it in and counts it for its parent. */
    method Place(parent: Option<nat>, key: Key) returns (f: nat)
      requires Pooled({}) && (parent.Some? ==> parent.value in live)
      modifies this`frames, this`head, this`poolCount, this`next, this`pool, this`live, this`liveCount, this`depth
      ensures Pooled({}) && liveCount == old(liveCount) + 1
      ensures live == old(live) + {f} && f !in old(live) && frames[f] == Frame(1, parent, key)
      ensures LiveKept(old(frames), old(live), frames, parent)
    {
      f := Take();
      Fill(f, Frame(1, parent, key));
      if parent.Some? {
        Increment(parent.value);
      }
    }

    /** Makes a taken frame live. */
    method Fill(f: nat, frame: Frame)
      requires Pooled({f}) && (frame.parent.Some? ==> frame.parent.value in live)
      modifies this`frames, this`live, this`liveCount, this`depth
      ensures Pooled({}) && live == old(live) + {f} && liveCount == old(liveCount) + 1
      ensures frames == old(frames)[f := frame]
    {
      ShapeAfterBirth(frames, live, depth, head, pool, f, frame);
      assert |live + {f}| == |live| + 1;
      frames := frames[f := frame];
      depth := depth[f := DepthBelow(frame.parent, depth)];
      live := live + {f};
      liveCount := liveCount + 1;
    }

    /** Adds one to the count of a live frame. */
    method Increment(f: nat)
      requires Pooled({}) && f in live
      modifies this`frames
      ensures Pooled({}) && LiveKept(old(frames), live, frames, Some(f))
    {
      ShapeAfterCount(frames, live, depth, head, pool, f, frames[f].refcount + 1);
      frames := frames[f := frames[f].(refcount := frames[f].refcount + 1)];
    }

    /** Another reference to a live frame. */
    method Share(f: nat)
      requires Valid() && f in live
      modifies this`frames, this`holders
      ensures Valid() && holders == old(holders) + multiset{f}
      ensures PathsKept(old(frames), live, frames, live)
    {
      ghost var frames0, holders0 := frames, holders;
      Increment(f);
      CountedAfterShare(frames0, live, holders0, f, frames);
      holders := holders0 + multiset{f};
    }

    /** Takes one reference away; a frame without references is recycled and gives
        up its reference to its parent. */
    method Decref(f: nat)
      requires Pooled({}) && Counted(frames, live, holders, Some(f))
      modifies this`frames, this`head, this`poolCount, this`pool, this`live, this`liveCount
      ensures Valid() && live <= old(live)
      ensures f in live <==> old(frames[f].refcount) > 1
      ensures PathsKept(old(frames), old(live), frames, live)
      decreases depth[f]
    {
      var frame := frames[f].(refcount := frames[f].refcount - 1);
      if frame.refcount == 0 {
        Drop(f);
        if frame.parent.Some? {
          Decref(frame.parent.value);
        }
      } else {
        Lower(f);
      }
    }

    /** One of several references to `f` goes. */
    method Lower(f: nat)
      requires Pooled({}) && Counted(frames, live, holders, Some(f)) && frames[f].refcount > 1
      modifies this`frames
      ensures Valid() && frames == old(frames)[f := old(frames)[f].(refcount := old(frames)[f].refcount - 1)]
    {
      ShapeAfterCount(frames, live, depth, head, pool, f, frames[f].refcount - 1);
      CountedAfterLowering(frames, live, holders, f);
      frames := frames[f := frames[f].(refcount := frames[f].refcount - 1)];
    }

    /** The last reference to `f` goes: its parent is then counted once too often. */
    method Drop(f: nat)
      requires Pooled({}) && Counted(frames, live, holders, Some(f)) && frames[f].refcount == 1
      modifies this`frames, this`head, this`poolCount, this`pool, this`live, this`liveCount
      ensures Pooled({}) && live == old(live) - {f} && Counted(frames, live, holders, old(frames)[f].parent)
      ensures LiveKept(old(frames), live, frames, None)
    {
      ghost var parent := frames[f].parent;
      CountedAfterDeath(frames, live, depth, holders, f, frames[f := frames[f].(refcount := 0)]);
      ShapeAfterCount(frames, live, depth, head, pool, f, 0);
      frames := frames[f := frames[f].(refcount := 0)];
      ghost var frames1 := frames;
      Retire(f);
      CountsKept(frames1, frames, live, holders, parent);
    }

    /** Takes a frame without children out of the live ones: it is recycled. */
    method Retire(f: nat)
      requires Pooled({}) && f in live && Children(frames, live, f) == {}
      modifies this`frames, this`head, this`poolCount, this`pool, this`live, this`liveCount
      ensures Pooled({}) && live == old(live) - {f}
      ensures LiveKept(old(frames), live, frames, None)
      ensures pool == old(pool) + (if |old(pool)| < 1024 then {f} else {})
    {
      ShapeAfterDeath(frames, live, depth, head, pool, f);
      assert |live - {f}| == |live| - 1;
      liveCount := liveCount - 1;
      live := live - {f};
      Recycle(f);
    }

    /** Puts a loose frame on the free list, or frees it when the list is full. */
    method Recycle(f: nat)
      requires Pooled({f})
      modifies this`frames, this`head, this`poolCount, this`pool
      ensures Pooled({}) && LiveKept(old(frames), live, frames, None)
      ensures pool == old(pool) + (if |old(pool)| < 1024 then {f} else {})
    {
      if poolCount < POOL_MAX {
        Put(f);
      } else {
        ShapeAfterFree(frames, live, depth, head, pool, f);
        frames := frames - {f};
      }
    }

    /** Puts a loose frame on the free list. */
    method Put(f: nat)
      requires Pooled({f}) && poolCount < POOL_MAX
      modifies this`frames, this`head, this`poolCount, this`pool
      ensures Pooled({}) && LiveKept(old(frames), live, frames, None)
      ensures pool == old(pool) + {f}
    {
      ShapeAfterPut(frames, live, depth, head, pool, f);
      assert |pool + {f}| == |pool| + 1;
      frames := frames[f := frames[f].(parent := head)];
      head := Some(f);
      poolCount := poolCount + 1;
      pool := pool + {f};
    }

    /** Gives up a held reference. */
    method Release(f: nat)
      requires Valid() && f in holders
      modifies this`frames, this`head, this`poolCount, this`pool, this`live, this`liveCount, this`holders
      ensures Valid() && holders == old(holders) - multiset{f} && live <= old(live)
      ensures f in live <==> old(frames[f].refcount) > 1
      ensures PathsKept(old(frames), old(live), frames, live)
    {
      ghost var holders0 := holders;
      holders := holders - multiset{f};
      assert Counted(frames, live, holders, Some(f)) by {
        assert forall g :: g in holders ==> g in holders0;
      }
      Decref(f);
    }

    /** Gives up the reference of a pending entry, if it has one. */
    method ReleaseEntry(entry: Option<nat>)
      requires Valid() && Reference(entry) <= holders
      modifies this`frames, this`head, this`poolCount, this`pool, this`live, this`liveCount, this`holders
      ensures Valid() && holders == old(holders) - Reference(entry) && live <= old(live)
    {
      if entry.Some? {
        Release(entry.value);
      }
    }

    /** Gives up the references of all pending entries. */
    method ReleaseAll(entries: seq<Option<nat>>)
      requires Valid() && Held(entries) <= holders
      modifies this`frames, this`head, this`poolCount, this`pool, this`live, this`liveCount, this`holders
      ensures Valid() && holders == old(holders) - Held(entries) && live <= old(live)
    {
      ghost var kept := holders - Held(entries);
      for i := 0 to |entries|
        invariant Valid() && live <= old(live)
        invariant holders == kept + Held(entries[i..])
      {
        HeldSplits(entries, i, kept);
        ReleaseEntry(entries[i]);
      }
    }

    /** The live counter is zero exactly when nothing is held. */
    lemma CountZeroIffNoneHeld()
      requires Valid()
      ensures liveCount == 0 <==> holders == multiset{}
    {
      NoneLiveIffNoneHeld(frames, live, depth, holders);
    }
  }

  ghost function Reference(entry: Option<nat>): multiset<nat> {
    if entry.Some? then multiset{entry.value} else multiset{}
  }

  /** The references a list of pending entries holds. */
  ghost function Held(entries: seq<Option<nat>>): multiset<nat> {
    if entries == [] then multiset{} else Reference(entries[0]) + Held(entries[1..])
  }

  lemma HeldSplits(entries: seq<Option<nat>>, i: nat, kept: multiset<nat>)
    requires i < |entries|
    ensures Reference(entries[i]) <= kept + Held(entries[i..])
    ensures kept + Held(entries[i..]) - Reference(entries[i]) == kept + Held(entries[i + 1..])
  {
    assert entries[i..][1..] == entries[i + 1..];
    assert Held(entries[i..]) == Reference(entries[i]) + Held(entries[i + 1..]);
  }
}
