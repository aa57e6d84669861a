/** Sequences of calls: the calling code allocates and writes arrays it holds
    and calls the GStringImpl operations in any order. Whatever it does, the
    heap invariant holds, and a frozen instance keeps its arrays, their
    contents and `cacheable`; its cache only moves from absent to the
    rendering of its contents. */
module Lifecycle {
  import opened Values
  import opened Store
  import opened GStringImpl

  /** One step of the calling code. */
  datatype Op =
    | NewStrings(contents: seq<string>)
    | NewValues(elements: seq<Value>)
    | SetString(arr: Ref, index: nat, s: string)
    | SetValue(arr: Ref, index: nat, v: Value)
    | New(values: Ref, strings: Ref)
    | FreezeOp(target: Ref)
    | GetStringsOp(target: Ref)
    | GetValuesOp(target: Ref)
    | ToStringOp(target: Ref)
    | PlusOp(target: Ref, operand: Ref)

  /** The step can be taken: the references name what they must, and the
      calling code only writes or passes arrays it holds. */
  predicate Enabled(h: Heap, op: Op)
  {
    match op
    case NewStrings(_) => true
    case NewValues(vs) => ValuesOk(h, vs)
    case SetString(a, i, _) => a in h.held && a in h.strs && i < |h.strs[a]|
    case SetValue(a, i, v) => ValueOk(h, v) && a in h.held && a in h.vals && i < |h.vals[a]|
    case New(va, sa) => va in h.held && sa in h.held && va in h.vals && sa in h.strs
    case FreezeOp(g) => g in h.objs
    case GetStringsOp(g) => g in h.objs
    case GetValuesOp(g) => g in h.objs
    case ToStringOp(g) => g in h.objs
    case PlusOp(g, t) => g in h.objs && t in h.objs
  }

  /** The heap after `op`; a step that cannot be taken leaves it unchanged. */
  function Step(env: Env, h: Heap, op: Op): (h': Heap)
    requires Valid(h)
    ensures Valid(h')
  {
    if !Enabled(h, op) then h
    else match op
      case NewStrings(s) => AllocStrings(h, s, true).heap
      case NewValues(vs) => AllocValues(h, vs, true).heap
      case SetString(a, i, s) => WriteString(h, a, i, s)
      case SetValue(a, i, v) => WriteValue(h, a, i, v)
      case New(va, sa) => Construct(env, h, va, sa).heap
      case FreezeOp(g) => Freeze(h, g).heap
      case GetStringsOp(g) => GetStrings(h, g).heap
      case GetValuesOp(g) => GetValues(h, g).heap
      case ToStringOp(g) => ToString(env, h, g).heap
      case PlusOp(g, t) => Plus(h, g, t).heap
  }

  function Run(env: Env, h: Heap, ops: seq<Op>): (h': Heap)
    requires Valid(h)
    ensures Valid(h')
    decreases |ops|
  {
    if |ops| == 0 then h else Run(env, Step(env, h, ops[0]), ops[1..])
  }

  /** The rendering of instance `g`'s current contents. */
  function Contents(env: Env, h: Heap, g: Ref): string
    requires g in h.objs && h.objs[g].values in h.vals && h.objs[g].strings in h.strs
  {
    env.render(h.vals[h.objs[g].values], h.strs[h.objs[g].strings])
  }

  /** How a frozen instance `f` may evolve from `h` to `h'`: it stays frozen
      over the same arrays with the same contents and the same `cacheable`;
      a cached text stays, and a newly cached one is the rendering of its
      contents. */
  predicate FrozenObjEvolves(env: Env, h: Heap, h': Heap, f: Ref)
    requires Valid(h) && f in h.objs
  {
    var o := h.objs[f];
    && f in h'.objs
    && var o' := h'.objs[f];
    && o'.frozen && o'.values == o.values && o'.strings == o.strings
    && o'.cacheable == o.cacheable
    && o.values in h'.vals && h'.vals[o.values] == h.vals[o.values]
    && o.strings in h'.strs && h'.strs[o.strings] == h.strs[o.strings]
    && (o.cache.Some? ==> o'.cache == o.cache)
    && (o.cache.None? && o'.cache.Some? ==> o'.cache.value == Contents(env, h, f))
  }

  predicate FrozenEvolves(env: Env, h: Heap, h': Heap)
    requires Valid(h)
  {
    forall f :: f in h.objs && h.objs[f].frozen ==> FrozenObjEvolves(env, h, h', f)
  }

  lemma FrozenEvolvesTrans(env: Env, h1: Heap, h2: Heap, h3: Heap)
    requires Valid(h1) && Valid(h2)
    requires FrozenEvolves(env, h1, h2) && FrozenEvolves(env, h2, h3)
    ensures FrozenEvolves(env, h1, h3)
  {
  }

  /** Every single step keeps the frozen instances as `FrozenEvolves` says. */
  lemma StepFrozenEvolves(env: Env, h: Heap, op: Op)
    requires Valid(h)
    ensures FrozenEvolves(env, h, Step(env, h, op))
  {
  }

  /** Whatever the calling code does, every frozen instance evolves as
      `FrozenEvolves` says. */
  lemma {:induction false} RunFrozenEvolves(env: Env, h: Heap, ops: seq<Op>)
    requires Valid(h)
    ensures FrozenEvolves(env, h, Run(env, h, ops))
    decreases |ops|
  {
    if |ops| == 0 {
      forall f | f in h.objs && h.objs[f].frozen
        ensures FrozenObjEvolves(env, h, h, f)
      {
      }
    } else {
      var h1 := Step(env, h, ops[0]);
      StepFrozenEvolves(env, h, ops[0]);
      RunFrozenEvolves(env, h1, ops[1..]);
      FrozenEvolvesTrans(env, h, h1, Run(env, h1, ops[1..]));
    }
  }

  /** A frozen instance renders the same text before and after any sequence
      of the modelled calls, including direct writes to every array the
      calling code holds. The rendering sees the two arrays' contents only. */
  lemma FrozenToStringStable(env: Env, h: Heap, ops: seq<Op>, f: Ref)
    requires Valid(h) && f in h.objs && h.objs[f].frozen
    ensures f in Run(env, h, ops).objs
    ensures ToString(env, Run(env, h, ops), f).text == ToString(env, h, f).text
  {
    RunFrozenEvolves(env, h, ops);
    assert FrozenObjEvolves(env, h, Run(env, h, ops), f);
  }

  /** Two `toString()` calls with nothing in between give the same text, and
      the second changes nothing. */
  lemma ToStringTwice(env: Env, h: Heap, g: Ref)
    requires Valid(h) && g in h.objs
    ensures var r1 := ToString(env, h, g);
      && g in r1.heap.objs
      && ToString(env, r1.heap, g).text == r1.text
      && ToString(env, r1.heap, g).heap == r1.heap
      && (h.objs[g].cacheable ==> r1.heap.objs[g].cache == Some(r1.text))
  {
  }

  /** A frozen copy is a snapshot: after `freeze()` and any later calls,
      direct writes to the receiver's arrays among them, the copy still holds
      the receiver's contents as they were at the freeze, and its
      `cacheable` flag. */
  lemma FreezeSnapshot(env: Env, h: Heap, g: Ref, ops: seq<Op>)
    requires Valid(h) && g in h.objs
    ensures var fr := Freeze(h, g);
      var o, h' := h.objs[g], Run(env, fr.heap, ops);
      && fr.ref in h'.objs
      && var c := h'.objs[fr.ref];
      && c.frozen && c.cacheable == o.cacheable
      && c.values in h'.vals && h'.vals[c.values] == h.vals[o.values]
      && c.strings in h'.strs && h'.strs[c.strings] == h.strs[o.strings]
  {
    var fr := Freeze(h, g);
    RunFrozenEvolves(env, fr.heap, ops);
    assert FrozenObjEvolves(env, fr.heap, Run(env, fr.heap, ops), fr.ref);
  }

  /** Once a frozen instance holds a cached text, every later `toString()`
      answers exactly that text, whatever the calling code does. */
  lemma FrozenCachedTextFixed(env: Env, h: Heap, ops: seq<Op>, f: Ref)
    requires Valid(h) && f in h.objs && h.objs[f].frozen && h.objs[f].cache.Some?
    ensures f in Run(env, h, ops).objs
    ensures ToString(env, Run(env, h, ops), f).text == h.objs[f].cache.value
  {
    RunFrozenEvolves(env, h, ops);
    assert FrozenObjEvolves(env, h, Run(env, h, ops), f);
  }

  /** Only a cacheable instance ever holds a cached text. */
  predicate CachedOnlyIfCacheable(h: Heap)
  {
    forall g :: g in h.objs && h.objs[g].cache.Some? ==> h.objs[g].cacheable
  }

  lemma StepCachedOnlyIfCacheable(env: Env, h: Heap, op: Op)
    requires Valid(h) && CachedOnlyIfCacheable(h)
    ensures CachedOnlyIfCacheable(Step(env, h, op))
  {
    if op.New? || op.FreezeOp? || op.PlusOp? {
      NewInstanceCachedOnlyIfCacheable(env, h, op);
    }
  }

  /** The steps that create an instance: its cache, if any, comes with its
      flag, from the receiver of `freeze()`. */
  lemma NewInstanceCachedOnlyIfCacheable(env: Env, h: Heap, op: Op)
    requires Valid(h) && CachedOnlyIfCacheable(h)
    requires op.New? || op.FreezeOp? || op.PlusOp?
    ensures CachedOnlyIfCacheable(Step(env, h, op))
  {
    if Enabled(h, op) {
      match op
      case New(va, sa) =>
        var r := Construct(env, h, va, sa);
        assert r.heap.objs == h.objs[r.ref := r.heap.objs[r.ref]];
      case FreezeOp(g) =>
        var r := Freeze(h, g);
        assert r.heap.objs == h.objs[r.ref := r.heap.objs[r.ref]];
      case PlusOp(g, u) =>
        var fr := Freeze(h, u);
        assert fr.heap.objs == h.objs[fr.ref := fr.heap.objs[fr.ref]];
        assert Plus(h, g, u).heap.objs == fr.heap.objs;
    }
  }

  /** Every sequence of calls keeps `CachedOnlyIfCacheable`. */
  lemma {:induction false} RunCachedOnlyIfCacheable(env: Env, h: Heap, ops: seq<Op>)
    requires Valid(h) && CachedOnlyIfCacheable(h)
    ensures CachedOnlyIfCacheable(Run(env, h, ops))
    decreases |ops|
  {
    if |ops| > 0 {
      var h1 := Step(env, h, ops[0]);
      StepCachedOnlyIfCacheable(env, h, ops[0]);
      RunCachedOnlyIfCacheable(env, h1, ops[1..]);
    }
  }

  predicate IsAccessor(op: Op)
  {
    op.GetStringsOp? || op.GetValuesOp?
  }

  /** Any number of `getStrings()`/`getValues()` calls, on any instances,
      leave every frozen instance exactly as it was. */
  lemma {:induction false} AccessorsKeepFrozen(env: Env, h: Heap, ops: seq<Op>, f: Ref)
    requires Valid(h) && f in h.objs && h.objs[f].frozen
    requires forall i :: 0 <= i < |ops| ==> IsAccessor(ops[i])
    ensures f in Run(env, h, ops).objs && Run(env, h, ops).objs[f] == h.objs[f]
    decreases |ops|
  {
    if |ops| > 0 {
      var h1 := Step(env, h, ops[0]);
      assert h1.objs[f] == h.objs[f] by {
        assert OwnsArrays(h, f);
      }
      assert forall i :: 0 <= i < |ops[1..]| ==> IsAccessor(ops[1..][i]) by {
        forall i | 0 <= i < |ops[1..]| ensures IsAccessor(ops[1..][i]) {
          assert ops[1..][i] == ops[i + 1];
        }
      }
      AccessorsKeepFrozen(env, h1, ops[1..], f);
    }
  }

  /** Once an instance is not cacheable and holds no cached text, it never
      caches again: no operation sets `cacheable` back to true. */
  lemma {:induction false} UncacheableStaysUncached(env: Env, h: Heap, ops: seq<Op>, g: Ref)
    requires Valid(h) && g in h.objs && !h.objs[g].cacheable && h.objs[g].cache.None?
    ensures var h' := Run(env, h, ops);
      g in h'.objs && !h'.objs[g].cacheable && h'.objs[g].cache.None?
    decreases |ops|
  {
    if |ops| > 0 {
      var h1 := Step(env, h, ops[0]);
      assert g in h1.objs && !h1.objs[g].cacheable && h1.objs[g].cache.None?;
      UncacheableStaysUncached(env, h1, ops[1..], g);
    }
  }

  /** Every cached text is the rendering of its instance's current contents. */
  predicate Coherent(env: Env, h: Heap)
    requires Valid(h)
  {
    forall g :: g in h.objs && h.objs[g].cache.Some? ==> h.objs[g].cache.value == Contents(env, h, g)
  }

  /** The step writes directly into an array that backs an instance holding
      a cached text. */
  predicate WritesCachedArray(h: Heap, op: Op)
  {
    match op
    case SetString(a, _, _) => exists g :: g in h.objs && h.objs[g].cache.Some? && h.objs[g].strings == a
    case SetValue(a, _, _) => exists g :: g in h.objs && h.objs[g].cache.Some? && h.objs[g].values == a
    case _ => false
  }

  /** Every step except a direct write into a cached instance's array keeps
      all cached texts equal to the rendering of the current contents. */
  lemma StepKeepsCoherent(env: Env, h: Heap, op: Op)
    requires Valid(h) && Coherent(env, h) && !WritesCachedArray(h, op)
    ensures Coherent(env, Step(env, h, op))
  {
    var h' := Step(env, h, op);
    forall g | g in h'.objs && h'.objs[g].cache.Some?
      ensures h'.objs[g].cache.value == Contents(env, h', g)
    {
      if Enabled(h, op) {
        match op
        case SetString(a, i, s) =>
          assert h.objs[g].strings != a;
        case SetValue(a, i, v) =>
          assert h.objs[g].values != a;
        case FreezeOp(t) =>
          if g !in h.objs {
            assert h.objs[t].cache.Some? ==> h.objs[t].cache.value == Contents(env, h, t);
          }
        case PlusOp(p, t) =>
          if g !in h.objs {
            var fr := Freeze(h, t);
            assert h.objs[t].cache.Some? ==> h.objs[t].cache.value == Contents(env, h, t);
            assert fr.heap.objs[g] == h'.objs[g];
          }
        case _ =>
      }
    }
  }

  /** Writing through the array `getStrings()` handed out: on a non-frozen
      instance the write shows in the next `toString()`, even if a text was
      cached before; on a frozen one it does not. */
  lemma WriteThroughGetStrings(env: Env, h: Heap, g: Ref, i: nat, s: string)
    requires Valid(h) && g in h.objs && i < |h.strs[h.objs[g].strings]|
    ensures var o, res := h.objs[g], GetStrings(h, g);
      var h' := WriteString(res.heap, res.ref, i, s);
      && g in h'.objs
      && (!o.frozen ==> ToString(env, h', g).text == env.render(h.vals[o.values], h.strs[o.strings][i := s]))
      && (o.frozen ==> ToString(env, h', g).text == ToString(env, h, g).text)
  {
  }

  /** The same for the array `getValues()` handed out. */
  lemma WriteThroughGetValues(env: Env, h: Heap, g: Ref, i: nat, v: Value)
    requires Valid(h) && g in h.objs && i < |h.vals[h.objs[g].values]| && ValueOk(h, v)
    ensures var o, res := h.objs[g], GetValues(h, g);
      var h' := WriteValue(res.heap, res.ref, i, v);
      && g in h'.objs
      && (!o.frozen ==> ToString(env, h', g).text == env.render(h.vals[o.values][i := v], h.strs[o.strings]))
      && (o.frozen ==> ToString(env, h', g).text == ToString(env, h, g).text)
  {
  }

  /** A rendering that shows only the first string, enough to tell two
      contents apart below. */
  function FirstString(vs: seq<Value>, ss: seq<string>): string
  {
    if |ss| > 0 then ss[0] else ""
  }

  /** The aliasing hazard of the public constructor: the calling code keeps
      the arrays it passed in, and a direct write to one of them after a
      cached `toString()` leaves the cached text stale. With a rendering that
      shows the first string, the instance built over ["a"] keeps answering
      "a" after its string array has become ["b"]. */
  lemma DirectWriteLeavesStaleCache()
    ensures var env := Env({}, {}, FirstString);
      var va := AllocValues(Empty, [], true);
      var sa := AllocStrings(va.heap, ["a"], true);
      var g := Construct(env, sa.heap, va.ref, sa.ref);
      var first := ToString(env, g.heap, g.ref);
      var h := WriteString(first.heap, sa.ref, 0, "b");
      && first.text == "a"
      && g.ref in h.objs
      && ToString(env, h, g.ref).text == "a"
      && Contents(env, h, g.ref) == "b"
      && !Coherent(env, h)
  {
  }
}
