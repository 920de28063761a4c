/** Whole runs of copy-on-write arrays against independent value arrays. */
module CowRuns {
  import opened CowArray

  /** One operation on arrays numbered in order of creation; destroying one renumbers those after it. */
  datatype Op<!T> =
    | Create(x: T)
    | CreateFrom(values: seq<T>)
    | CreateCopy(src: nat)
    | Destroy(k: nat)
    | Assign(dst: nat, src: nat)
    | AssignAll(dst: nat, x: T)
    | AssignArray(dst: nat, values: seq<T>)
    | MaskAll(dst: nat, mask: T -> T)
    | Write(dst: nat, i: nat, v: T)
    | SetLower(dst: nat, bound: int)
    | SetUpper(dst: nat, bound: int)
    | Read(src: nat, i: nat)
    | Compare(a: nat, b: nat)

  /** What an operation answers. */
  datatype Answer<T> = Nothing | Element(v: T) | Same(equal: bool)

  /** The operation makes sense for the arrays s, all of the given size. */
  predicate Enabled<T>(op: Op<T>, s: seq<Value<T>>, size: nat) {
    match op
    case Create(_) => true
    case CreateFrom(values) => |values| == size
    case CreateCopy(src) => src < |s|
    case Destroy(k) => k < |s|
    case Assign(dst, src) => dst < |s| && src < |s|
    case AssignAll(dst, _) => dst < |s|
    case AssignArray(dst, values) => dst < |s| && |values| == size
    case MaskAll(dst, _) => dst < |s|
    case Write(dst, i, _) => dst < |s| && i < size
    case SetLower(dst, _) => dst < |s|
    case SetUpper(dst, _) => dst < |s|
    case Read(src, i) => src < |s| && i < size
    case Compare(a, b) => a < |s| && b < |s| && 0 < size && s[a].lower < size && s[a].upper < size
  }

  predicate Sized<T>(s: seq<Value<T>>, size: nat) {
    forall k :: 0 <= k < |s| ==> |s[k].elems| == size
  }

  /** The operation on value arrays, which share nothing. */
  function Apply<T>(op: Op<T>, s: seq<Value<T>>, size: nat): (r: seq<Value<T>>)
    requires Enabled(op, s, size) && Sized(s, size)
    ensures Sized(r, size)
  {
    match op
    case Create(x) => s + [Value(Repeat(size, x), -1, -1, true)]
    case CreateFrom(values) => s + [Value(values, -1, -1, false)]
    case CreateCopy(src) => s + [s[src]]
    case Destroy(k) => s[..k] + s[k + 1..]
    case Assign(dst, src) => s[dst := s[src]]
    case AssignAll(dst, x) => s[dst := s[dst].(elems := Repeat(size, x), lazy := true)]
    case AssignArray(dst, values) => s[dst := s[dst].(elems := values, lazy := false)]
    case MaskAll(dst, mask) => s[dst := s[dst].(elems := Masked(s[dst].elems, mask))]
    case Write(dst, i, v) => s[dst := s[dst].(elems := s[dst].elems[i := v], lazy := false)]
    case SetLower(dst, bound) => s[dst := s[dst].(lower := bound)]
    case SetUpper(dst, bound) => s[dst := s[dst].(upper := bound)]
    case Read(_, _) => s
    case Compare(_, _) => s
  }

  /** What the operation answers on value arrays. */
  ghost function Reply<T>(op: Op<T>, s: seq<Value<T>>, size: nat): Answer<T>
    requires Enabled(op, s, size) && Sized(s, size)
  {
    match op
    case Read(src, i) => Element(s[src].elems[i])
    case Compare(a, b) => Same(Compared(s[a], s[b]))
    case _ => Nothing
  }

  predicate AllEnabled<T>(ops: seq<Op<T>>, s: seq<Value<T>>, size: nat)
    requires Sized(s, size)
  {
    |ops| == 0 || (Enabled(ops[0], s, size) && AllEnabled(ops[1..], Apply(ops[0], s, size), size))
  }

  function ApplyAll<T>(ops: seq<Op<T>>, s: seq<Value<T>>, size: nat): (r: seq<Value<T>>)
    requires Sized(s, size) && AllEnabled(ops, s, size)
    ensures Sized(r, size)
  {
    if |ops| == 0 then s else ApplyAll(ops[1..], Apply(ops[0], s, size), size)
  }

  ghost function Replies<T>(ops: seq<Op<T>>, s: seq<Value<T>>, size: nat): seq<Answer<T>>
    requires Sized(s, size) && AllEnabled(ops, s, size)
  {
    if |ops| == 0 then [] else [Reply(ops[0], s, size)] + Replies(ops[1..], Apply(ops[0], s, size), size)
  }

  /** The handles hs are all there are, and stand for the value arrays s. */
  ghost predicate Shows<T(0)>(w: World<T>, hs: seq<Handle<T>>, s: seq<Value<T>>, size: nat)
    reads w, hs, set h: Handle<T> | h in hs && h.p != null :: h.p.val
  {
    && |hs| == |s| && Sized(s, size)
    && w.handles == (set h | h in hs)
    && (forall j, k :: 0 <= j < k < |hs| ==> hs[j] != hs[k])
    && forall k :: 0 <= k < |hs| ==> hs[k].size == size && hs[k].View() == s[k]
  }

  ghost function Storage<T(0)>(w: World<T>): set<object>
    reads w
  {
    {w} + w.handles + w.blocks + (set b | b in w.blocks :: b.val)
  }

  /** The arrays after a handle was added at the end. */
  lemma Appended<T(0)>(w: World<T>, hs: seq<Handle<T>>, s: seq<Value<T>>, h: Handle<T>, t: Value<T>, size: nat)
    requires |hs| == |s| && Sized(s, size) && |t.elems| == size
    requires w.handles == (set g | g in hs) + {h} && h !in hs
    requires forall j, k :: 0 <= j < k < |hs| ==> hs[j] != hs[k]
    requires forall k :: 0 <= k < |hs| ==> hs[k].size == size && hs[k].View() == s[k]
    requires h.size == size && h.View() == t
    ensures Shows(w, hs + [h], s + [t], size)
  {
  }

  /** The arrays after one of them changed. */
  lemma Updated<T(0)>(w: World<T>, hs: seq<Handle<T>>, s: seq<Value<T>>, k: nat, t: Value<T>, size: nat)
    requires |hs| == |s| && Sized(s, size) && |t.elems| == size && k < |hs|
    requires w.handles == (set g | g in hs)
    requires forall i, j :: 0 <= i < j < |hs| ==> hs[i] != hs[j]
    requires forall i :: 0 <= i < |hs| ==> hs[i].size == size && hs[i].View() == (if i == k then t else s[i])
    ensures Shows(w, hs, s[k := t], size)
  {
  }

  /** The arrays after one of them went away. */
  lemma Removed<T(0)>(w: World<T>, hs: seq<Handle<T>>, s: seq<Value<T>>, k: nat, size: nat)
    requires |hs| == |s| && Sized(s, size) && k < |hs|
    requires w.handles == (set g | g in hs) - {hs[k]}
    requires forall i, j :: 0 <= i < j < |hs| ==> hs[i] != hs[j]
    requires forall i :: 0 <= i < |hs| && i != k ==> hs[i].size == size && hs[i].View() == s[i]
    ensures Shows(w, hs[..k] + hs[k + 1..], s[..k] + s[k + 1..], size)
  {
    var r := hs[..k] + hs[k + 1..];
    forall h | h in w.handles
      ensures h in r
    {
      var i :| 0 <= i < |hs| && hs[i] == h;
      assert h == r[if i < k then i else i - 1];
    }
  }

  /** Every object of the world that is not old is newly allocated. */
  twostate predicate OnlyNew<T(0)>(w: World<T>)
    reads w
  {
    && OnlyNewBlocks(w)
    && forall h :: h in w.handles && h !in old(w.handles) ==> fresh(h)
  }

  method CreateStep<T(0)>(w: World<T>, hs: seq<Handle<T>>, ghost s: seq<Value<T>>, size: nat, x: T) returns (r: seq<Handle<T>>)
    requires w.Valid() && Shows(w, hs, s, size)
    modifies w
    ensures w.Valid() && Shows(w, r, s + [Value(Repeat(size, x), -1, -1, true)], size) && |w.handles| <= old(|w.handles|) + 1
    ensures OnlyNew(w)
  {
    var h := new Handle<T>.Filled(w, size, x);
    r := hs + [h];
    Appended(w, hs, s, h, Value(Repeat(size, x), -1, -1, true), size);
  }

  method CreateFromStep<T(0)>(w: World<T>, hs: seq<Handle<T>>, ghost s: seq<Value<T>>, size: nat, values: seq<T>)
    returns (r: seq<Handle<T>>)
    requires w.Valid() && Shows(w, hs, s, size) && |values| == size
    modifies w
    ensures w.Valid() && Shows(w, r, s + [Value(values, -1, -1, false)], size) && |w.handles| <= old(|w.handles|) + 1
    ensures OnlyNew(w)
  {
    var a := new T[|values|](i requires 0 <= i < |values| => values[i]);
    assert a[..] == values;
    var h := new Handle<T>.FromArray(w, a);
    r := hs + [h];
    Appended(w, hs, s, h, Value(values, -1, -1, false), size);
  }

  method CreateCopyStep<T(0)>(w: World<T>, hs: seq<Handle<T>>, ghost s: seq<Value<T>>, size: nat, src: nat)
    returns (r: seq<Handle<T>>)
    requires w.Valid() && Shows(w, hs, s, size) && src < |hs| && |w.handles| < INT_MAX
    modifies w, hs[src].Block()
    ensures w.Valid() && Shows(w, r, s + [s[src]], size) && |w.handles| <= old(|w.handles|) + 1
    ensures OnlyNew(w)
  {
    var h := new Handle<T>.Copy(w, hs[src]);
    r := hs + [h];
    Appended(w, hs, s, h, s[src], size);
  }

  method DestroyStep<T(0)>(w: World<T>, hs: seq<Handle<T>>, ghost s: seq<Value<T>>, size: nat, k: nat)
    returns (r: seq<Handle<T>>)
    requires w.Valid() && Shows(w, hs, s, size) && k < |hs|
    modifies w, hs[k], hs[k].Block()
    ensures w.Valid() && Shows(w, r, s[..k] + s[k + 1..], size) && |w.handles| <= old(|w.handles|) + 1
    ensures OnlyNew(w)
  {
    hs[k].Destroy(w);
    r := hs[..k] + hs[k + 1..];
    Removed(w, hs, s, k, size);
  }

  method AssignStep<T(0)>(w: World<T>, hs: seq<Handle<T>>, ghost s: seq<Value<T>>, size: nat, dst: nat, src: nat)
    requires w.Valid() && Shows(w, hs, s, size) && dst < |hs| && src < |hs| && |w.handles| < INT_MAX
    modifies hs[dst], hs[dst].Block(), hs[src].Block()
    ensures w.Valid() && Shows(w, hs, s[dst := s[src]], size)
  {
    hs[dst].Assign(w, hs[src]);
    Updated(w, hs, s, dst, s[src], size);
  }

  method AssignArrayStep<T(0)>(w: World<T>, hs: seq<Handle<T>>, ghost s: seq<Value<T>>, size: nat, dst: nat, values: seq<T>)
    requires w.Valid() && Shows(w, hs, s, size) && dst < |hs| && |values| == size
    modifies hs[dst], w, hs[dst].Storage()
    ensures w.Valid() && Shows(w, hs, s[dst := s[dst].(elems := values, lazy := false)], size) && w.handles == old(w.handles) && OnlyNew(w)
  {
    var a := new T[|values|](i requires 0 <= i < |values| => values[i]);
    assert a[..] == values;
    hs[dst].AssignArray(w, a);
    Updated(w, hs, s, dst, s[dst].(elems := values, lazy := false), size);
  }

  method UpdateStep<T(0)>(w: World<T>, hs: seq<Handle<T>>, ghost s: seq<Value<T>>, size: nat, op: Op<T>)
    requires w.Valid() && Shows(w, hs, s, size) && Enabled(op, s, size)
    requires op.AssignAll? || op.MaskAll? || op.Write? || op.SetLower? || op.SetUpper?
    modifies w, hs[op.dst], hs[op.dst].Storage()
    ensures w.Valid() && Shows(w, hs, Apply(op, s, size), size) && w.handles == old(w.handles) && OnlyNew(w)
  {
    match op
    case AssignAll(dst, x) =>
      hs[dst].AssignAll(w, x);
    case MaskAll(dst, mask) =>
      hs[dst].Mask(w, mask);
    case Write(dst, i, v) =>
      hs[dst].Write(w, i, v);
    case SetLower(dst, bound) =>
      hs[dst].SetLower(w, bound);
    case SetUpper(dst, bound) =>
      hs[dst].SetUpper(w, bound);
    Updated(w, hs, s, op.dst, Apply(op, s, size)[op.dst], size);
  }

  /** An operation that only looks. */
  method AskStep<T(0, ==)>(w: World<T>, hs: seq<Handle<T>>, ghost s: seq<Value<T>>, size: nat, op: Op<T>) returns (answer: Answer<T>)
    requires w.Valid() && Shows(w, hs, s, size) && Enabled(op, s, size)
    requires op.Read? || op.Compare?
    ensures answer == Reply(op, s, size)
  {
    match op
    case Read(src, i) =>
      var v := hs[src].Read(w, i);
      answer := Element(v);
    case Compare(a, b) =>
      var r := Equals(w, hs[a], hs[b]);
      answer := Same(r);
  }

  /** An array comes or goes. */
  method LifeStep<T(0)>(w: World<T>, hs: seq<Handle<T>>, ghost s: seq<Value<T>>, size: nat, op: Op<T>) returns (r: seq<Handle<T>>)
    requires w.Valid() && Shows(w, hs, s, size) && Enabled(op, s, size) && |w.handles| < INT_MAX
    requires op.Create? || op.CreateFrom? || op.CreateCopy? || op.Destroy?
    modifies Storage(w)
    ensures w.Valid() && Shows(w, r, Apply(op, s, size), size) && |w.handles| <= old(|w.handles|) + 1 && OnlyNew(w)
  {
    match op
    case Create(x) => r := CreateStep(w, hs, s, size, x);
    case CreateFrom(values) => r := CreateFromStep(w, hs, s, size, values);
    case CreateCopy(src) => r := CreateCopyStep(w, hs, s, size, src);
    case Destroy(k) => r := DestroyStep(w, hs, s, size, k);
  }

  /** An array is assigned. */
  method AssignOpStep<T(0)>(w: World<T>, hs: seq<Handle<T>>, ghost s: seq<Value<T>>, size: nat, op: Op<T>)
    requires w.Valid() && Shows(w, hs, s, size) && Enabled(op, s, size) && |w.handles| < INT_MAX
    requires op.Assign? || op.AssignArray?
    modifies Storage(w)
    ensures w.Valid() && Shows(w, hs, Apply(op, s, size), size) && w.handles == old(w.handles) && OnlyNew(w)
  {
    match op
    case Assign(dst, src) => AssignStep(w, hs, s, size, dst, src);
    case AssignArray(dst, values) => AssignArrayStep(w, hs, s, size, dst, values);
  }

  lemma Footprint<T(0)>(w: World<T>, h: Handle<T>)
    requires w.Valid() && h in w.handles
    ensures {h} + h.Storage() <= Storage(w)
  {
  }

  /** Every operation on handles does to the values what it does to independent arrays, and answers
      what they would. */
  method Step<T(0, ==)>(w: World<T>, hs: seq<Handle<T>>, ghost s: seq<Value<T>>, size: nat, op: Op<T>)
    returns (r: seq<Handle<T>>, answer: Answer<T>)
    requires w.Valid() && Shows(w, hs, s, size) && Enabled(op, s, size) && |w.handles| < INT_MAX
    modifies Storage(w)
    ensures w.Valid() && Shows(w, r, Apply(op, s, size), size) && |w.handles| <= old(|w.handles|) + 1
    ensures OnlyNew(w) && answer == Reply(op, s, size)
  {
    hide World<T>.Valid;
    r, answer := hs, Nothing;
    if op.Create? || op.CreateFrom? || op.CreateCopy? || op.Destroy? {
      r := LifeStep(w, hs, s, size, op);
    } else if op.Read? || op.Compare? {
      answer := AskStep(w, hs, s, size, op);
    } else if op.Assign? || op.AssignArray? {
      AssignOpStep(w, hs, s, size, op);
    } else {
      Footprint(w, hs[op.dst]);
      UpdateStep(w, hs, s, size, op);
    }
  }

  twostate lemma StorageGrows<T(0)>(w: World<T>)
    requires OnlyNew(w)
    ensures fresh(Storage(w) - old(Storage(w)))
  {
  }

  method RunFrom<T(0, ==)>(w: World<T>, hs: seq<Handle<T>>, ghost s: seq<Value<T>>, size: nat, ops: seq<Op<T>>)
    returns (r: seq<Handle<T>>, answers: seq<Answer<T>>)
    requires w.Valid() && Shows(w, hs, s, size) && AllEnabled(ops, s, size) && |w.handles| + |ops| < INT_MAX
    modifies Storage(w)
    ensures w.Valid() && Shows(w, r, ApplyAll(ops, s, size), size)
    ensures answers == Replies(ops, s, size)
    decreases |ops|
  {
    if |ops| == 0 {
      r, answers := hs, [];
    } else {
      var answer: Answer<T>;
      r, answer := Step(w, hs, s, size, ops[0]);
      StorageGrows(w);
      hide World<T>.Valid, Apply, Reply, Storage, Shows;
      r, answers := RunFrom(w, r, Apply(ops[0], s, size), size, ops[1..]);
      answers := [answer] + answers;
    }
  }

  /** Any run, from nothing: every count is right, unused blocks are gone, each array holds what it
      would hold if nothing were shared, and every element read and every comparison on the way
      answered what it would then have answered. */
  method Run<T(0, ==)>(size: nat, ops: seq<Op<T>>) returns (w: World<T>, hs: seq<Handle<T>>, answers: seq<Answer<T>>)
    requires AllEnabled(ops, [], size) && |ops| < INT_MAX
    ensures w.Valid() && Shows(w, hs, ApplyAll(ops, [], size), size)
    ensures answers == Replies(ops, [], size)
  {
    w := new World<T>();
    hs, answers := RunFrom(w, [], [], size, ops);
  }
}
