/** The copy-on-write array of `mc_container_types.h`: handles share reference-counted blocks and
    must behave like independent value arrays. */
module CowArray {

  const INT_MAX: int := 0x7fff_ffff

  /** A shared block of elements; `live` turns false when it is deleted. */
  class Data<T(0)> {
    const val: array<T>
    var cnt: int
    var live: bool
    ghost var users: set<Handle<T>>

    /** Every element set to x. */
    constructor Filled(size: nat, x: T)
      ensures fresh(val) && val[..] == Repeat(size, x)
      ensures cnt == 0 && live && users == {}
    {
      cnt, live, users := 0, true, {};
      var v := new T[size];
      val := v;
      new;
      for i := 0 to size
        invariant val == v && fresh(v) && v.Length == size && cnt == 0 && live && users == {}
        invariant forall j :: 0 <= j < i ==> v[j] == x
      {
        val[i] := x;
      }
      assert val[..] == Repeat(size, x);
    }

    /** Elements copied from another array. */
    constructor CopyOf(a: array<T>)
      ensures fresh(val) && val[..] == a[..]
      ensures cnt == 0 && live && users == {}
    {
      cnt, live, users := 0, true, {};
      var v := new T[a.Length];
      val := v;
      new;
      for i := 0 to a.Length
        invariant val == v && fresh(v) && v.Length == a.Length && cnt == 0 && live && users == {}
        invariant v[..i] == a[..i]
      {
        val[i] := a[i];
      }
      assert a[..] == a[..a.Length];
    }

    /** Elements overwritten from another array. */
    method Load(a: array<T>)
      requires live && a.Length == val.Length
      modifies val
      ensures val[..] == old(a[..])
    {
      ghost var was := a[..];
      for i := 0 to a.Length
        invariant forall j :: 0 <= j < a.Length ==> val[j] == (if j < i then was[j] else old(val[j]))
        invariant a != val ==> a[..] == was
      {
        val[i] := a[i];
      }
      assert val[..] == was;
    }

    /** `operator&=`, with masking by one fixed mask as a function on elements. */
    method Mask(mask: T -> T)
      requires live
      modifies val
      ensures val[..] == Masked(old(val[..]), mask)
    {
      for i := 0 to val.Length
        invariant forall j :: 0 <= j < val.Length ==> val[j] == (if j < i then mask(old(val[j])) else old(val[j]))
      {
        val[i] := mask(val[i]);
      }
    }

    method Inc()
      requires live && cnt < INT_MAX
      modifies this`cnt
      ensures cnt == old(cnt) + 1
    {
      cnt := cnt + 1;
    }

    method Dec() returns (c: int)
      requires live && 0 < cnt
      modifies this`cnt
      ensures c == cnt == old(cnt) - 1
    {
      cnt := cnt - 1;
      c := cnt;
    }

    /** `delete`: allowed only once nobody counts on the block. */
    method Delete()
      requires live && cnt == 0
      modifies this`live
      ensures !live
    {
      live := false;
    }

    /** One handle leaves; the last one deletes the block. */
    method Release()
      requires live && 0 < cnt
      modifies this`cnt, this`live
      ensures cnt == old(cnt) - 1 && (live <==> 0 < cnt)
    {
      var c := Dec();
      if c == 0 {
        Delete();
      }
    }
  }

  function Repeat<T>(n: nat, x: T): (r: seq<T>)
    ensures |r| == n && forall i :: 0 <= i < n ==> r[i] == x
  {
    seq(n, _ => x)
  }

  function Masked<T>(s: seq<T>, mask: T -> T): (r: seq<T>)
    ensures |r| == |s| && forall i :: 0 <= i < |s| ==> r[i] == mask(s[i])
  {
    seq(|s|, i requires 0 <= i < |s| => mask(s[i]))
  }

  /** What a handle stands for: its elements, the bounds that `operator==` uses, and whether it is
      lazy, that is, all elements are one fill value and there is no block. */
  datatype Value<T> = Value(elems: seq<T>, lower: int, upper: int, lazy: bool)

  /** All handles in existence and all blocks ever allocated. */
  class World<T(0)> {
    ghost var handles: set<Handle<T>>
    ghost var blocks: set<Data<T>>

    constructor ()
      ensures Valid() && handles == {} && blocks == {}
    {
      handles, blocks := {}, {};
    }

    /** Each count is the number of handles to its block, and exactly the blocks in use are live. */
    ghost predicate Valid()
      reads this, handles, blocks
    {
      && (forall h :: h in handles && h.p != null ==> h.p in blocks && h in h.p.users && h.p.val.Length == h.size)
      && (forall b, h :: b in blocks && h in b.users ==> h in handles && h.p == b)
      && (forall b :: b in blocks ==> b.cnt == |b.users| && (b.live <==> 0 < b.cnt))
      && (forall b, c :: b in blocks && c in blocks && b != c ==> b.val != c.val)
    }
  }

  /** Blocks are never forgotten, and those added are newly allocated. */
  twostate predicate OnlyNewBlocks<T(0)>(w: World<T>)
    reads w
  {
    && old(w.blocks) <= w.blocks
    && forall b :: b in w.blocks && b !in old(w.blocks) ==> fresh(b) && fresh(b.val)
  }

  /** The counts when one handle goes from a block to another, either of them possibly absent: the new
      block is counted first, and a block that its last handle leaves is deleted. */
  method Recount<T(0)>(from: Data?<T>, to: Data?<T>, ghost h: Handle<T>)
    requires from != null ==> from.live && 0 < from.cnt && h in from.users
    requires to != null ==> to.live && to.cnt < INT_MAX
    modifies from, to
    ensures from != null && from != to ==>
      from.users == old(from.users) - {h} && from.cnt == old(from.cnt) - 1 && (from.live <==> 0 < from.cnt)
    ensures to != null && from != to ==>
      to.users == old(to.users) + {h} && to.cnt == old(to.cnt) + 1 && to.live
    ensures from != null && from == to ==>
      from.users == old(from.users) && from.cnt == old(from.cnt) && from.live == old(from.live)
  {
    if to != null {
      to.Inc();
    }
    if from != null {
      from.Release();
      from.users := from.users - {h};
    }
    if to != null {
      to.users := to.users + {h};
    }
  }

  class Handle<T(0)> {
    const size: nat
    var lower: int
    var upper: int
    var p: Data?<T>
    var x: T

    /** The value array this handle stands for. */
    ghost function Contents(): seq<T>
      reads this, if p == null then {} else {p.val}
    {
      if p == null then Repeat(size, x) else p.val[..]
    }

    ghost function View(): Value<T>
      reads this, if p == null then {} else {p.val}
    {
      Value(Contents(), lower, upper, p == null)
    }

    /** The block behind this handle, if it has one. */
    ghost function Block(): set<object>
      reads this
    {
      if p == null then {} else (var b: Data<T> := p; {b})
    }

    /** The block together with its elements. */
    ghost function Storage(): set<object>
      reads this
    {
      if p == null then {} else (var b: Data<T> := p; {b, b.val})
    }

    constructor Filled(w: World<T>, size: nat, x: T)
      requires w.Valid()
      modifies w
      ensures w.Valid() && w.handles == old(w.handles) + {this} && w.blocks == old(w.blocks)
      ensures this.size == size && View() == Value(Repeat(size, x), -1, -1, true)
    {
      this.size := size;
      lower, upper, p, this.x := -1, -1, null, x;
      new;
      w.handles := w.handles + {this};
    }

    /** Copy construction: one more handle to the same block. */
    constructor Copy(w: World<T>, rhs: Handle<T>)
      requires w.Valid() && rhs in w.handles && |w.handles| < INT_MAX
      modifies w, rhs.Block()
      ensures w.Valid() && w.handles == old(w.handles) + {this} && w.blocks == old(w.blocks)
      ensures size == rhs.size && View() == old(rhs.View())
      ensures forall h :: h in old(w.handles) ==> h.View() == old(h.View())
    {
      size := rhs.size;
      lower, upper, p, x := rhs.lower, rhs.upper, rhs.p, rhs.x;
      new;
      Linked(w, rhs);
      Linked(w, this);
      if p != null {
        p.Inc();
        p.users := p.users + {this};
      }
      w.handles := w.handles + {this};
      Relinked(w, this, null, p);
    }

    /** The destructor: the last handle takes the block with it. */
    method Destroy(w: World<T>)
      requires w.Valid() && this in w.handles
      modifies this, w, Block()
      ensures w.Valid() && w.handles == old(w.handles) - {this} && w.blocks == old(w.blocks)
      ensures forall h :: h in w.handles ==> h.View() == old(h.View())
    {
      hide World<T>.Valid;
      Linked(w, this);
      Recount(p, null, this);
      p := null;
      w.handles := w.handles - {this};
      Relinked(w, this, old(p), null);
    }

    /** `operator=` from another array. */
    method Assign(w: World<T>, rhs: Handle<T>)
      requires w.Valid() && this in w.handles && rhs in w.handles && size == rhs.size && |w.handles| < INT_MAX
      modifies this, Block(), rhs.Block()
      ensures w.Valid()
      ensures View() == old(rhs.View())
      ensures forall h :: h in w.handles && h != this ==> h.View() == old(h.View())
    {
      hide World<T>.Valid;
      Linked(w, this);
      Linked(w, rhs);
      Recount(p, rhs.p, this);
      p := rhs.p;
      x := rhs.x;
      lower := rhs.lower;
      upper := rhs.upper;
      Relinked(w, this, old(p), p);
    }

    /** `operator=` from one element: the array becomes lazy again. */
    method AssignAll(w: World<T>, x: T)
      requires w.Valid() && this in w.handles
      modifies this, Block()
      ensures w.Valid() && View() == old(View()).(elems := Repeat(size, x), lazy := true)
      ensures forall h :: h in w.handles && h != this ==> h.View() == old(h.View())
    {
      hide World<T>.Valid;
      Linked(w, this);
      Recount(p, null, this);
      p := null;
      this.x := x;
      Relinked(w, this, old(p), null);
    }

    /** Construction from an array of elements. */
    constructor FromArray(w: World<T>, a: array<T>)
      requires w.Valid()
      modifies w
      ensures w.Valid() && w.handles == old(w.handles) + {this} && OnlyNewBlocks(w)
      ensures size == a.Length && View() == Value(old(a[..]), -1, -1, false)
      ensures forall h :: h in old(w.handles) ==> h.View() == old(h.View())
    {
      size := a.Length;
      lower, upper := -1, -1;
      p := null;
      new;
      w.handles := w.handles + {this};
      var b := new Data<T>.CopyOf(a);
      Settle(w, b);
    }

    /** `assign`: elements loaded in place when no other handle can see them, and into a new block otherwise. */
    method AssignArray(w: World<T>, a: array<T>)
      requires w.Valid() && this in w.handles && a.Length == size
      modifies this, w, Storage()
      ensures w.Valid() && w.handles == old(w.handles) && OnlyNewBlocks(w)
      ensures View() == old(View()).(elems := old(a[..]), lazy := false)
      ensures forall h :: h in w.handles && h != this ==> h.View() == old(h.View())
    {
      Linked(w, this);
      if p != null {
        if p.cnt == 1 {
          Alone(w, this);
          p.Load(a);
          return;
        }
      }
      var b := new Data<T>.CopyOf(a);
      Settle(w, b);
    }

    /** `operator&=`: a shared block is replaced by a private copy before masking. */
    method Mask(w: World<T>, mask: T -> T)
      requires w.Valid() && this in w.handles
      modifies this, w, Storage()
      ensures w.Valid() && w.handles == old(w.handles) && OnlyNewBlocks(w)
      ensures View() == old(View()).(elems := Masked(old(Contents()), mask))
      ensures forall h :: h in w.handles && h != this ==> h.View() == old(h.View())
    {
      Linked(w, this);
      if p != null {
        if p.cnt > 1 {
          var b := new Data<T>.CopyOf(p.val);
          Settle(w, b);
        }
        Alone(w, this);
        p.Mask(mask);
      } else {
        x := mask(x);
      }
    }

    /** This handle leaves its block, which others still use, and has the new block b to itself. */
    method Settle(w: World<T>, b: Data<T>)
      requires w.Valid() && this in w.handles && (p != null ==> 1 < p.cnt)
      requires b !in w.blocks && b.cnt == 0 && b.live && b.val.Length == size
      requires forall c :: c in w.blocks ==> c.val != b.val
      modifies this`p, w`blocks, Block(), b
      ensures w.Valid() && w.blocks == old(w.blocks) + {b} && p == b && p.cnt == 1
      ensures View() == old(View()).(elems := b.val[..], lazy := false)
      ensures forall h :: h in w.handles && h != this ==> h.View() == old(h.View())
    {
      hide World<T>.Valid;
      Linked(w, this);
      ghost var source := p;
      if p != null {
        var c := p.Dec();
        p.users := p.users - {this};
      }
      p := b;
      p.Inc();
      p.users := {this};
      w.blocks := w.blocks + {b};
      Rehoused(w, this, source, b);
    }

    /** What `operator[]` does before it hands out an element to write: the block becomes private. */
    method Own(w: World<T>)
      requires w.Valid() && this in w.handles
      modifies this, w, Block()
      ensures w.Valid() && w.handles == old(w.handles) && OnlyNewBlocks(w)
      ensures p != null && p.cnt == 1 && (p == old(p) || fresh(p.val))
      ensures View() == old(View()).(lazy := false)
      ensures forall h :: h in w.handles && h != this ==> h.View() == old(h.View())
    {
      Linked(w, this);
      if p == null {
        var b := new Data<T>.Filled(size, x);
        Settle(w, b);
      } else if p.cnt > 1 {
        var b := new Data<T>.CopyOf(p.val);
        Settle(w, b);
      }
    }

    /** Writing an element through `operator[]`. */
    method Write(w: World<T>, i: nat, v: T)
      requires w.Valid() && this in w.handles && i < size
      modifies this, w, Storage()
      ensures w.Valid() && w.handles == old(w.handles) && OnlyNewBlocks(w)
      ensures View() == old(View()).(elems := old(Contents())[i := v], lazy := false)
      ensures forall h :: h in w.handles && h != this ==> h.View() == old(h.View())
    {
      Own(w);
      Linked(w, this);
      Alone(w, this);
      p.val[i] := v;
    }

    /** The bounds that `operator==` uses; negative for none. */
    method SetLower(w: World<T>, lower: int)
      requires w.Valid() && this in w.handles
      modifies this`lower
      ensures w.Valid() && View() == old(View()).(lower := lower)
      ensures forall h :: h in w.handles && h != this ==> h.View() == old(h.View())
    {
      this.lower := lower;
    }

    method SetUpper(w: World<T>, upper: int)
      requires w.Valid() && this in w.handles
      modifies this`upper
      ensures w.Valid() && View() == old(View()).(upper := upper)
      ensures forall h :: h in w.handles && h != this ==> h.View() == old(h.View())
    {
      this.upper := upper;
    }

    method Read(w: World<T>, i: nat) returns (v: T)
      requires w.Valid() && this in w.handles && i < size
      ensures v == Contents()[i]
    {
      Linked(w, this);
      if p != null {
        v := p.val[i];
      } else {
        v := x;
      }
    }

    /** `copy_to` a plain array. */
    method CopyTo(w: World<T>, lhs: array<T>)
      requires w.Valid() && this in w.handles && lhs.Length == size
      requires forall b :: b in w.blocks ==> b.val != lhs
      modifies lhs
      ensures lhs[..] == Contents() == old(Contents())
    {
      Linked(w, this);
      if p != null {
        for i := 0 to size
          invariant lhs[..i] == p.val[..i] && p.val[..] == old(p.val[..])
        {
          lhs[i] := p.val[i];
        }
      } else {
        for i := 0 to size
          invariant forall j :: 0 <= j < i ==> lhs[j] == x
        {
          lhs[i] := x;
        }
      }
    }
  }

  /** What `operator==` answers: two lazy arrays compare their fill values, any others the elements
      between the bounds, where a negative bound is none. */
  ghost predicate Compared<T>(a: Value<T>, b: Value<T>)
    requires |a.elems| == |b.elems|
  {
    if a.lazy && b.lazy then a.elems == b.elems
    else
      forall i :: 0 <= i < |a.elems| && (a.lower < 0 || a.lower <= i) && (a.upper < 0 || i <= a.upper) ==>
        a.elems[i] == b.elems[i]
  }

  /** `operator==`.  It is equality on the bounds, except for two lazy arrays with an empty range,
      whose fill values are compared all the same. */
  method Equals<T(0, ==)>(w: World<T>, a: Handle<T>, rhs: Handle<T>) returns (r: bool)
    requires w.Valid() && a in w.handles && rhs in w.handles && a.size == rhs.size
    requires 0 < a.size && a.lower < a.size && a.upper < a.size
    ensures |a.Contents()| == |rhs.Contents()| == a.size && (r <==> Compared(a.View(), rhs.View()))
    ensures a.lower < 0 && a.upper < 0 ==> (r <==> a.Contents() == rhs.Contents())
    ensures
      0 <= a.lower <= a.upper ==> (r <==> forall i :: a.lower <= i <= a.upper ==> a.Contents()[i] == rhs.Contents()[i])
    ensures
      a.lower < 0 <= a.upper ==> (r <==> forall i :: 0 <= i <= a.upper ==> a.Contents()[i] == rhs.Contents()[i])
    ensures
      a.upper < 0 <= a.lower ==> (r <==> forall i :: a.lower <= i < a.size ==> a.Contents()[i] == rhs.Contents()[i])
    ensures 0 <= a.upper < a.lower ==> (r <==> a.p != null || rhs.p != null || a.x == rhs.x)
  {
    Linked(w, a);
    Linked(w, rhs);
    var lb := if a.lower < 0 then 0 else a.lower;
    var ub := if a.upper < 0 then a.size - 1 else a.upper;
    if a.p == null {
      if rhs.p == null {
        r := a.x == rhs.x;
        if a.x != rhs.x {
          assert a.Contents()[lb] != rhs.Contents()[lb];
        }
      } else {
        var i := lb;
        while i <= ub
          invariant lb <= i && forall j :: lb <= j < i && j <= ub ==> rhs.p.val[j] == a.x
        {
          if rhs.p.val[i] != a.x {
            assert rhs.Contents()[i] != a.Contents()[i];
            return false;
          }
          i := i + 1;
        }
        r := true;
      }
    } else if rhs.p == null {
      var i := lb;
      while i <= ub
        invariant lb <= i && forall j :: lb <= j < i && j <= ub ==> a.p.val[j] == rhs.x
      {
        if a.p.val[i] != rhs.x {
          assert a.Contents()[i] != rhs.Contents()[i];
          return false;
        }
        i := i + 1;
      }
      r := true;
    } else {
      if a.p == rhs.p {
        return true;
      }
      var i := lb;
      while i <= ub
        invariant lb <= i && forall j :: lb <= j < i && j <= ub ==> rhs.p.val[j] == a.p.val[j]
      {
        if rhs.p.val[i] != a.p.val[i] {
          assert rhs.Contents()[i] != a.Contents()[i];
          return false;
        }
        i := i + 1;
      }
      r := true;
    }
  }

  /** Two arrays of two elements, filled with different values and nothing to compare, differ. */
  method EmptyRangeExample() returns (w: World<bool>, a: Handle<bool>, b: Handle<bool>, r: bool)
    ensures w.Valid() && a.View() == Value([false, false], 1, 0, true) && b.View() == Value([true, true], -1, -1, true)
    ensures !r
  {
    w := new World<bool>();
    a := new Handle<bool>.Filled(w, 2, false);
    b := new Handle<bool>.Filled(w, 2, true);
    a.SetLower(w, 1);
    a.SetUpper(w, 0);
    r := Equals(w, a, b);
  }

  /** Moving one handle from block `source` to block `target`, either of them possibly absent,
      keeps every count right. */
  twostate lemma Relinked<T(0)>(w: World<T>, new h: Handle<T>, new source: Data?<T>, new target: Data?<T>)
    requires old(w.Valid()) && w.blocks == old(w.blocks)
    requires w.handles == old(w.handles) + {h} || (w.handles == old(w.handles) - {h} && target == null)
    requires h.p == target && (target != null ==> target in old(w.blocks) && target.val.Length == h.size)
    requires forall g :: g in old(w.handles) && g != h ==> g.p == old(g.p)
    requires source != null ==> source in old(w.blocks) && h in old(source.users)
    requires source == null ==> forall b :: b in w.blocks ==> h !in old(b.users)
    requires forall b :: b in w.blocks && b != source && b != target ==>
      b.users == old(b.users) && b.cnt == old(b.cnt) && b.live == old(b.live)
    requires source != null && source != target ==>
      source.users == old(source.users) - {h} && source.cnt == old(source.cnt) - 1 && (source.live <==> 0 < source.cnt)
    requires target != null && source != target ==>
      target.users == old(target.users) + {h} && target.cnt == old(target.cnt) + 1 && target.live
    requires source != null && source == target ==>
      source.users == old(source.users) && source.cnt == old(source.cnt) && source.live == old(source.live)
    ensures w.Valid()
  {
    if source != null && source != target {
      assert |source.users| == |old(source.users)| - 1;
    }
    if target != null && source != target {
      assert h !in old(target.users);
      assert |target.users| == |old(target.users)| + 1;
    }
    forall b | b in w.blocks
      ensures b.cnt == |b.users| && (b.live <==> 0 < b.cnt)
    {
      assert old(b.cnt) == |old(b.users)| && (old(b.live) <==> 0 < old(b.cnt));
    }
  }

  /** Moving one handle to a new block of its own. */
  twostate lemma Rehoused<T(0)>(w: World<T>, new h: Handle<T>, new source: Data?<T>, new target: Data<T>)
    requires old(w.Valid()) && w.blocks == old(w.blocks) + {target}
    requires w.handles == old(w.handles) + {h}
    requires h.p == target && target !in old(w.blocks) && target.val.Length == h.size
    requires target.users == {h} && target.cnt == 1 && target.live
    requires forall b :: b in old(w.blocks) ==> b.val != target.val
    requires forall g :: g in old(w.handles) && g != h ==> g.p == old(g.p)
    requires source != null ==> source in old(w.blocks) && h in old(source.users)
    requires source == null ==> forall b :: b in old(w.blocks) ==> h !in old(b.users)
    requires forall b :: b in old(w.blocks) && b != source ==>
      b.users == old(b.users) && b.cnt == old(b.cnt) && b.live == old(b.live)
    requires source != null ==>
      source.users == old(source.users) - {h} && source.cnt == old(source.cnt) - 1 && (source.live <==> 0 < source.cnt)
    ensures w.Valid()
  {
    if source != null {
      assert |source.users| == |old(source.users)| - 1;
    }
  }

  /** The only handle to a block is alone with its elements. */
  lemma Alone<T(0)>(w: World<T>, h: Handle<T>)
    requires w.Valid() && h in w.handles && h.p != null && h.p.cnt == 1
    ensures h.p.users == {h}
    ensures forall g :: g in w.handles && g != h && g.p != null ==> g.p != h.p && g.p.val != h.p.val
  {
    assert |h.p.users - {h}| == 0;
  }

  /** What a handle may rely on about its block. */
  lemma Linked<T(0)>(w: World<T>, h: Handle<T>)
    requires w.Valid()
    ensures h in w.handles && h.p != null ==>
      h.p in w.blocks && h in h.p.users && h.p.live && 0 < h.p.cnt <= |w.handles| && h.p.val.Length == h.size
    ensures h !in w.handles || h.p == null ==> forall b :: b in w.blocks ==> h !in b.users
  {
    if h in w.handles && h.p != null {
      UsersBound(w, h.p);
    }
  }

  /** Each count is the number of handles to its block, and a block lives as long as there is one. */
  lemma CountsHandles<T(0)>(w: World<T>, b: Data<T>)
    requires w.Valid() && b in w.blocks
    ensures b.cnt == |set h | h in w.handles && h.p == b|
    ensures b.live <==> exists h :: h in w.handles && h.p == b
  {
    assert b.users == (set h | h in w.handles && h.p == b);
    if b.live {
      var h :| h in b.users;
    }
  }

  lemma UsersBound<T(0)>(w: World<T>, b: Data<T>)
    requires w.Valid() && b in w.blocks
    ensures b.cnt <= |w.handles|
  {
    SubsetSize(b.users, w.handles);
  }

  lemma {:induction false} SubsetSize<A>(s: set<A>, t: set<A>)
    requires s <= t
    ensures |s| <= |t|
    decreases t
  {
    if s != {} {
      var a :| a in s;
      SubsetSize(s - {a}, t - {a});
    }
  }
}
