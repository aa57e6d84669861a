/** The compiler's default template string: a GStringImpl instance holds its
    value array through the GString base class and its string array itself,
    together with `frozen`, `cacheable` and the cached rendering. Every
    operation takes the heap before the call and yields the heap after it. */
module GStringImpl {
  import opened Values
  import opened Store

  /** The per-value test of the cacheability check: null is skipped, and any
      other value must be of an immutable class, of a class whose `toString`
      is marked pure, or an instance of GStringImpl that is itself cacheable. */
  predicate SafeValue(env: Env, h: Heap, v: Value)
  {
    match v
    case Null => true
    case Plain(cls, _) => ClassSafe(env, cls)
    case GStr(cls, r) => ClassSafe(env, cls) || (r in h.objs && h.objs[r].cacheable)
  }

  /** `checkValuesStringConstant`: scans the values in order, skipping nulls,
      and answers false at the first value that is not safe to cache. */
  function ValuesCacheable(env: Env, h: Heap, vs: seq<Value>): (r: bool)
    ensures r <==> forall i :: 0 <= i < |vs| ==> SafeValue(env, h, vs[i])
  {
    if |vs| == 0 then true
    else if vs[0].Null? then ValuesCacheable(env, h, vs[1..])
    else if !(ClassSafe(env, vs[0].cls) || (vs[0].GStr? && vs[0].ref in h.objs && h.objs[vs[0].ref].cacheable)) then false
    else ValuesCacheable(env, h, vs[1..])
  }

  /** The protected constructor. A frozen instance gets clones of both arrays
      (values first, then strings); a non-frozen one stores the very arrays it
      was given. `cacheable` and the cached text are stored as passed. */
  function NewGString(h: Heap, values: Ref, strings: Ref, cacheable: bool, cache: Option<string>, frozen: bool): (res: Alloc)
    requires Valid(h) && values in h.vals && strings in h.strs
    requires !frozen ==> values in h.held && strings in h.held
    ensures Valid(res.heap) && Extends(h, res.heap)
    ensures Fresh(h, res.ref) && res.ref in res.heap.objs
    ensures res.heap.objs.Keys == h.objs.Keys + {res.ref}
    ensures res.heap.held == h.held
    ensures var o := res.heap.objs[res.ref];
      && o.frozen == frozen && o.cacheable == cacheable && o.cache == cache
      && o.values in res.heap.vals && res.heap.vals[o.values] == h.vals[values]
      && o.strings in res.heap.strs && res.heap.strs[o.strings] == h.strs[strings]
      && (frozen ==> o.values !in h.vals && o.strings !in h.strs && o.values != o.strings)
      && (!frozen ==> o.values == values && o.strings == strings)
  {
    if frozen then
      var va := AllocValues(h, h.vals[values], false);
      var sa := AllocStrings(va.heap, h.strs[strings], false);
      Install(sa.heap, GStringObj(va.ref, sa.ref, true, cacheable, cache))
    else
      Install(h, GStringObj(values, strings, false, cacheable, cache))
  }

  /** Puts a new instance with fields `o` at the next free reference. A frozen
      instance's arrays must be ones no one else holds or shares; a
      non-frozen instance may share arrays but must not take a frozen one's. */
  function Install(h: Heap, o: GStringObj): (res: Alloc)
    requires Valid(h) && o.values in h.vals && o.strings in h.strs
    requires o.frozen ==> o.values !in h.held && o.strings !in h.held
    requires o.frozen ==> forall g :: g in h.objs ==> h.objs[g].values != o.values && h.objs[g].strings != o.strings
    requires !o.frozen ==> forall f :: f in h.objs && h.objs[f].frozen ==> h.objs[f].values != o.values && h.objs[f].strings != o.strings
    ensures Valid(res.heap) && Extends(h, res.heap)
    ensures Fresh(h, res.ref) && res.ref in res.heap.objs && res.heap.objs[res.ref] == o
    ensures res.heap.objs.Keys == h.objs.Keys + {res.ref}
    ensures res.heap.strs == h.strs && res.heap.vals == h.vals && res.heap.held == h.held
  {
    var r := h.next;
    var h' := h.(objs := h.objs[r := o], next := r + 1);
    assert forall a :: a in h'.vals ==> ValuesOk(h', h'.vals[a]) by {
      forall a | a in h'.vals ensures ValuesOk(h', h'.vals[a]) {
        assert ValuesOk(h, h.vals[a]);
      }
    }
    assert FrozenPrivate(h') by {
      forall f | f in h'.objs && h'.objs[f].frozen ensures OwnsArrays(h', f) {
        if f != r {
          assert OwnsArrays(h, f);
        }
      }
    }
    Alloc(h', r)
  }

  /** The public constructor `GStringImpl(values, strings)`: a non-frozen
      instance with no cached text, sharing the caller's arrays, cacheable
      exactly when the cacheability check accepts the values. */
  function Construct(env: Env, h: Heap, values: Ref, strings: Ref): (res: Alloc)
    requires Valid(h) && values in h.vals && strings in h.strs
    requires values in h.held && strings in h.held
    ensures Valid(res.heap) && Extends(h, res.heap)
    ensures Fresh(h, res.ref) && res.ref in res.heap.objs
    ensures res.heap.objs.Keys == h.objs.Keys + {res.ref}
    ensures res.heap.strs == h.strs && res.heap.vals == h.vals && res.heap.held == h.held
    ensures var o := res.heap.objs[res.ref];
      && !o.frozen && o.cache == None
      && o.values == values && o.strings == strings
      && (o.cacheable <==> forall i :: 0 <= i < |h.vals[values]| ==> SafeValue(env, h, h.vals[values][i]))
  {
    NewGString(h, values, strings, ValuesCacheable(env, h, h.vals[values]), None, false)
  }

  /** `freeze()`: a new frozen instance over private copies of the receiver's
      arrays, carrying over `cacheable` and the cached text. */
  function Freeze(h: Heap, g: Ref): (res: Alloc)
    requires Valid(h) && g in h.objs
    ensures Valid(res.heap) && Extends(h, res.heap)
    ensures Fresh(h, res.ref) && res.ref in res.heap.objs
    ensures res.heap.objs.Keys == h.objs.Keys + {res.ref}
    ensures res.heap.held == h.held
    ensures var o, c := h.objs[g], res.heap.objs[res.ref];
      && c.frozen && c.cacheable == o.cacheable && c.cache == o.cache
      && c.values !in h.vals && c.strings !in h.strs
      && c.values in res.heap.vals && res.heap.vals[c.values] == h.vals[o.values]
      && c.strings in res.heap.strs && res.heap.strs[c.strings] == h.strs[o.strings]
  {
    var o := h.objs[g];
    NewGString(h, o.values, o.strings, o.cacheable, o.cache, true)
  }

  /** `getStrings()`. A frozen instance hands out a fresh copy and keeps its
      cache state; a non-frozen one hands out its live array and gives up
      caching: `cacheable` becomes false and the cached text is dropped. */
  function GetStrings(h: Heap, g: Ref): (res: Alloc)
    requires Valid(h) && g in h.objs
    ensures Valid(res.heap) && Grows(h, res.heap)
    ensures res.ref in res.heap.strs && res.ref in res.heap.held
    ensures var o := h.objs[g];
      && res.heap.strs[res.ref] == h.strs[o.strings]
      && (o.frozen ==>
            && Fresh(h, res.ref)
            && res.heap.objs == h.objs && res.heap.vals == h.vals
            && res.heap.strs.Keys == h.strs.Keys + {res.ref}
            && res.heap.held == h.held + {res.ref})
      && (!o.frozen ==>
            && res.ref == o.strings
            && res.heap == h.(objs := h.objs[g := o.(cacheable := false, cache := None)],
                              held := h.held + {o.strings}))
  {
    var o := h.objs[g];
    if o.frozen then
      AllocStrings(h, h.strs[o.strings], true)
    else
      Alloc(Invalidate(h, g, o.strings), o.strings)
  }

  /** `getValues()`, the same as `getStrings()` for the value array. */
  function GetValues(h: Heap, g: Ref): (res: Alloc)
    requires Valid(h) && g in h.objs
    ensures Valid(res.heap) && Grows(h, res.heap)
    ensures res.ref in res.heap.vals && res.ref in res.heap.held
    ensures var o := h.objs[g];
      && res.heap.vals[res.ref] == h.vals[o.values]
      && (o.frozen ==>
            && Fresh(h, res.ref)
            && res.heap.objs == h.objs && res.heap.strs == h.strs
            && res.heap.vals.Keys == h.vals.Keys + {res.ref}
            && res.heap.held == h.held + {res.ref})
      && (!o.frozen ==>
            && res.ref == o.values
            && res.heap == h.(objs := h.objs[g := o.(cacheable := false, cache := None)],
                              held := h.held + {o.values}))
  {
    var o := h.objs[g];
    if o.frozen then
      var vs := h.vals[o.values];
      assert ValuesOk(h, vs);
      AllocValues(h, vs, true)
    else
      Alloc(Invalidate(h, g, o.values), o.values)
  }

  /** The side effect of exposing array `a` of the non-frozen instance `g`:
      the calling code now holds `a`, and `g` stops caching. */
  function Invalidate(h: Heap, g: Ref, a: Ref): (h': Heap)
    requires Valid(h) && g in h.objs && !h.objs[g].frozen
    requires a == h.objs[g].values || a == h.objs[g].strings
    ensures Valid(h') && Grows(h, h')
    ensures h' == h.(objs := h.objs[g := h.objs[g].(cacheable := false, cache := None)], held := h.held + {a})
  {
    var o := h.objs[g];
    var h' := h.(objs := h.objs[g := o.(cacheable := false, cache := None)], held := h.held + {a});
    assert FrozenPrivate(h') by {
      forall f | f in h'.objs && h'.objs[f].frozen ensures OwnsArrays(h', f) {
        assert f != g && OwnsArrays(h, f);
        assert o.values in h.vals && o.strings in h.strs;
        assert h.objs[f].values in h.vals && h.objs[f].strings in h.strs;
      }
    }
    assert forall b :: b in h'.vals ==> ValuesOk(h', h'.vals[b]) by {
      forall b | b in h'.vals ensures ValuesOk(h', h'.vals[b]) {
        assert ValuesOk(h, h.vals[b]);
      }
    }
    h'
  }

  /** The result of `toString()`: the heap after the call and the text. */
  datatype Rendered = Rendered(heap: Heap, text: string)

  /** `toString()`. A cached text is returned with no change of state.
      Otherwise the current contents are rendered, and the text is cached
      exactly when the instance is cacheable. */
  function ToString(env: Env, h: Heap, g: Ref): (res: Rendered)
    requires Valid(h) && g in h.objs
    ensures Valid(res.heap) && Grows(h, res.heap)
    ensures var o := h.objs[g];
      && (o.cache.Some? ==> res.text == o.cache.value && res.heap == h)
      && (o.cache.None? ==>
            && res.text == env.render(h.vals[o.values], h.strs[o.strings])
            && res.heap == (if o.cacheable then h.(objs := h.objs[g := o.(cache := Some(res.text))]) else h))
  {
    var o := h.objs[g];
    if o.cache.Some? then
      Rendered(h, o.cache.value)
    else
      var text := env.render(h.vals[o.values], h.strs[o.strings]);
      if o.cacheable then
        var h' := h.(objs := h.objs[g := o.(cache := Some(text))]);
        assert FrozenPrivate(h') by {
          forall f | f in h'.objs && h'.objs[f].frozen ensures OwnsArrays(h', f) {
            assert OwnsArrays(h, f);
          }
        }
        assert forall b :: b in h'.vals ==> ValuesOk(h', h'.vals[b]) by {
          forall b | b in h'.vals ensures ValuesOk(h', h'.vals[b]) {
            assert ValuesOk(h, h.vals[b]);
          }
        }
        Rendered(h', text)
      else
        Rendered(h, text)
  }

  /** The four arrays `plus` hands to the concatenation splice, in argument
      order: the receiver's values and the operand's values, then the
      receiver's strings and the operand's strings. */
  datatype SpliceArgs = SpliceArgs(values1: Ref, values2: Ref, strings1: Ref, strings2: Ref)

  datatype PlusCall = PlusCall(heap: Heap, args: SpliceArgs)

  /** `plus(that)` up to the call of the splice: the operand is frozen first
      and read through its frozen copy's accessors, which hand out fresh
      copies; the receiver's own arrays are read directly, bypassing its
      invalidating accessors. Neither instance changes. */
  function Plus(h: Heap, g: Ref, that: Ref): (res: PlusCall)
    requires Valid(h) && g in h.objs && that in h.objs
    ensures Valid(res.heap) && Extends(h, res.heap)
    ensures g in res.heap.objs && res.heap.objs[g] == h.objs[g]
    ensures that in res.heap.objs && res.heap.objs[that] == h.objs[that]
    ensures var a, o, t := res.args, h.objs[g], h.objs[that];
      && a.values1 == o.values && a.strings1 == o.strings
      && a.values2 !in h.vals && a.strings2 !in h.strs
      && a.values2 in res.heap.vals && res.heap.vals[a.values2] == h.vals[t.values]
      && a.strings2 in res.heap.strs && res.heap.strs[a.strings2] == h.strs[t.strings]
  {
    var fr := Freeze(h, that);
    assert fr.heap.objs[fr.ref].frozen;
    var tv := GetValues(fr.heap, fr.ref);
    assert tv.heap.objs == fr.heap.objs && Extends(h, tv.heap);
    var ts := GetStrings(tv.heap, fr.ref);
    assert ts.heap.objs == fr.heap.objs && Extends(h, ts.heap);
    PlusCall(ts.heap, SpliceArgs(h.objs[g].values, tv.ref, h.objs[g].strings, ts.ref))
  }

  /** The check over a concatenation of value arrays accepts exactly when it
      accepts both parts: one unsafe value anywhere poisons the whole. */
  lemma CacheableAppend(env: Env, h: Heap, a: seq<Value>, b: seq<Value>)
    ensures ValuesCacheable(env, h, a + b) <==> ValuesCacheable(env, h, a) && ValuesCacheable(env, h, b)
  {
    if ValuesCacheable(env, h, a) && ValuesCacheable(env, h, b) {
      forall i | 0 <= i < |a + b| ensures SafeValue(env, h, (a + b)[i]) {
        if i < |a| {
          assert (a + b)[i] == a[i];
        } else {
          assert (a + b)[i] == b[i - |a|];
        }
      }
    }
    if ValuesCacheable(env, h, a + b) {
      forall i | 0 <= i < |a| ensures SafeValue(env, h, a[i]) {
        assert (a + b)[i] == a[i];
      }
      forall i | 0 <= i < |b| ensures SafeValue(env, h, b[i]) {
        assert (a + b)[|a| + i] == b[i];
      }
    }
  }

  /** Nulls never matter: an array of nulls, the empty array included, is
      cacheable, and adding nulls to an array does not change the verdict. */
  lemma NullsAreSkipped(env: Env, h: Heap, vs: seq<Value>, n: nat)
    ensures ValuesCacheable(env, h, seq(n, _ => Null))
    ensures ValuesCacheable(env, h, vs + [Null]) == ValuesCacheable(env, h, vs)
  {
    CacheableAppend(env, h, vs, [Null]);
  }

  /** The purity marker alone decides: over values all of one class `cls`
      that is not immutable, the check accepts when `cls` has a pure
      `toString` and refuses when it does not. */
  lemma PureMarkerDecides(env: Env, h: Heap, vs: seq<Value>, cls: ClassName)
    requires cls !in env.immutableClasses
    requires exists i :: 0 <= i < |vs| && (vs[i].Plain? && vs[i].cls == cls)
    requires forall i :: 0 <= i < |vs| ==> vs[i].Null? || (vs[i].Plain? && vs[i].cls == cls)
    ensures ValuesCacheable(env.(pureToStringClasses := env.pureToStringClasses + {cls}), h, vs)
    ensures !ValuesCacheable(env.(pureToStringClasses := env.pureToStringClasses - {cls}), h, vs)
  {
  }

  /** An embedded GStringImpl is accepted on its own `cacheable` flag,
      whatever its class. */
  lemma NestedCacheable(env: Env, h: Heap, cls: ClassName, r: Ref)
    requires r in h.objs
    ensures ValuesCacheable(env, h, [GStr(cls, r)]) <==> ClassSafe(env, cls) || h.objs[r].cacheable
  {
  }

  /** A parent's flag is decided once, at construction: a parent built over a
      cacheable nested instance stays cacheable after the nested instance
      hands out its string array and stops being cacheable itself. */
  lemma NestedFlagFixedAtConstruction(env: Env, h: Heap, va: Ref, sa: Ref, cls: ClassName, n: Ref)
    requires Valid(h) && va in h.vals && sa in h.strs && va in h.held && sa in h.held
    requires n in h.objs && h.objs[n].cacheable && h.vals[va] == [GStr(cls, n)]
    ensures var p := Construct(env, h, va, sa);
      var q := GetStrings(p.heap, n);
      && p.heap.objs[p.ref].cacheable
      && p.ref in q.heap.objs && q.heap.objs[p.ref].cacheable
      && (!h.objs[n].frozen ==> !q.heap.objs[n].cacheable)
  {
  }
}
