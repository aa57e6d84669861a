/** The heap the template strings live in: string arrays, value arrays and
    GStringImpl instances, each at a reference. Java's reference semantics —
    two instances sharing one array, a caller keeping the array it passed to a
    constructor — are modelled by storing array references, not contents, in
    each instance. */
module Store {
  import opened Values

  /** The fields of one GStringImpl instance. `values` and `strings` are
      references to the backing arrays; `cache` is `cachedStringLiteral`. */
  datatype GStringObj = GStringObj(
    values: Ref,
    strings: Ref,
    frozen: bool,
    cacheable: bool,
    cache: Option<string>)

  /** `strs` and `vals` hold the contents of every allocated array, `objs` every
      GStringImpl instance. `held` is the set of arrays the calling code holds
      a reference to (the only arrays it can write), and `next` is the next
      unused reference. */
  datatype Heap = Heap(
    strs: map<Ref, seq<string>>,
    vals: map<Ref, seq<Value>>,
    objs: map<Ref, GStringObj>,
    held: set<Ref>,
    next: Ref)

  /** The result of an operation that yields a reference: the new heap and
      the reference. */
  datatype Alloc = Alloc(heap: Heap, ref: Ref)

  const Empty: Heap := Heap(map[], map[], map[], {}, 0)

  /** Every reference in use lies below `next`. */
  predicate Bounded(h: Heap)
  {
    && (forall r :: r in h.strs ==> r < h.next)
    && (forall r :: r in h.vals ==> r < h.next)
    && (forall r :: r in h.objs ==> r < h.next)
    && (forall r :: r in h.held ==> r < h.next)
  }

  /** An embedded GStringImpl refers to an existing instance. */
  predicate ValueOk(h: Heap, v: Value)
  {
    v.GStr? ==> v.ref in h.objs
  }

  predicate ValuesOk(h: Heap, vs: seq<Value>)
  {
    forall i :: 0 <= i < |vs| ==> ValueOk(h, vs[i])
  }

  /** String and value arrays never share a reference, each instance's arrays
      exist, and each value array refers only to existing instances. */
  predicate WellFormed(h: Heap)
  {
    && h.strs.Keys !! h.vals.Keys
    && (forall r :: r in h.objs ==> h.objs[r].values in h.vals && h.objs[r].strings in h.strs)
    && (forall a :: a in h.vals ==> ValuesOk(h, h.vals[a]))
  }

  /** The frozen instance at `f` is the only holder of its two arrays: the
      calling code has no reference to them and no other instance shares them. */
  predicate OwnsArrays(h: Heap, f: Ref)
    requires f in h.objs
  {
    var o := h.objs[f];
    && o.values !in h.held
    && o.strings !in h.held
    && forall g :: g in h.objs && g != f ==>
         h.objs[g].values != o.values && h.objs[g].strings != o.strings
  }

  predicate FrozenPrivate(h: Heap)
  {
    forall f :: f in h.objs && h.objs[f].frozen ==> OwnsArrays(h, f)
  }

  /** The heap invariant every operation keeps. */
  predicate Valid(h: Heap)
  {
    Bounded(h) && WellFormed(h) && FrozenPrivate(h)
  }

  /** Nothing existing is lost or rewritten: every array keeps its contents
      and the reference counter never goes back. Instances may change. */
  predicate Grows(h: Heap, h': Heap)
  {
    && h.next <= h'.next
    && h.objs.Keys <= h'.objs.Keys
    && (forall a :: a in h.strs ==> a in h'.strs && h'.strs[a] == h.strs[a])
    && (forall a :: a in h.vals ==> a in h'.vals && h'.vals[a] == h.vals[a])
  }

  /** Grows, and in addition every existing instance is untouched. */
  predicate Extends(h: Heap, h': Heap)
  {
    Grows(h, h') && forall g :: g in h.objs ==> h'.objs[g] == h.objs[g]
  }

  predicate Fresh(h: Heap, r: Ref)
  {
    r !in h.strs && r !in h.vals && r !in h.objs && r !in h.held
  }

  /** Allocates a string array with contents `s` (Java's `new String[]{...}`
      or `clone()`); `hand` says whether the reference goes to the calling code. */
  function AllocStrings(h: Heap, s: seq<string>, hand: bool): (res: Alloc)
    requires Valid(h)
    ensures Valid(res.heap) && Extends(h, res.heap)
    ensures Fresh(h, res.ref)
    ensures res.ref in res.heap.strs && res.heap.strs[res.ref] == s
    ensures res.heap.objs == h.objs && res.heap.vals == h.vals
    ensures res.heap.strs.Keys == h.strs.Keys + {res.ref}
    ensures res.heap.held == if hand then h.held + {res.ref} else h.held
  {
    var r := h.next;
    Alloc(h.(strs := h.strs[r := s], held := if hand then h.held + {r} else h.held, next := r + 1), r)
  }

  /** Allocates a value array with contents `vs`. */
  function AllocValues(h: Heap, vs: seq<Value>, hand: bool): (res: Alloc)
    requires Valid(h) && ValuesOk(h, vs)
    ensures Valid(res.heap) && Extends(h, res.heap)
    ensures Fresh(h, res.ref)
    ensures res.ref in res.heap.vals && res.heap.vals[res.ref] == vs
    ensures res.heap.objs == h.objs && res.heap.strs == h.strs
    ensures res.heap.vals.Keys == h.vals.Keys + {res.ref}
    ensures res.heap.held == if hand then h.held + {res.ref} else h.held
  {
    var r := h.next;
    Alloc(h.(vals := h.vals[r := vs], held := if hand then h.held + {r} else h.held, next := r + 1), r)
  }

  /** The calling code stores `s` at `strings[i]` of an array it holds. */
  function WriteString(h: Heap, a: Ref, i: nat, s: string): (h': Heap)
    requires Valid(h) && a in h.held && a in h.strs && i < |h.strs[a]|
    ensures Valid(h')
    ensures a in h'.strs && |h'.strs[a]| == |h.strs[a]| && h'.strs[a][i] == s
    ensures forall k :: 0 <= k < |h.strs[a]| && k != i ==> h'.strs[a][k] == h.strs[a][k]
    ensures forall b :: b in h.strs && b != a ==> b in h'.strs && h'.strs[b] == h.strs[b]
    ensures h'.objs == h.objs && h'.vals == h.vals && h'.held == h.held && h'.next == h.next
  {
    h.(strs := h.strs[a := h.strs[a][i := s]])
  }

  /** The calling code stores `v` at `values[i]` of an array it holds. */
  function WriteValue(h: Heap, a: Ref, i: nat, v: Value): (h': Heap)
    requires Valid(h) && ValueOk(h, v) && a in h.held && a in h.vals && i < |h.vals[a]|
    ensures Valid(h')
    ensures a in h'.vals && |h'.vals[a]| == |h.vals[a]| && h'.vals[a][i] == v
    ensures forall k :: 0 <= k < |h.vals[a]| && k != i ==> h'.vals[a][k] == h.vals[a][k]
    ensures forall b :: b in h.vals && b != a ==> b in h'.vals && h'.vals[b] == h.vals[b]
    ensures h'.objs == h.objs && h'.strs == h.strs && h'.held == h.held && h'.next == h.next
  {
    var h' := h.(vals := h.vals[a := h.vals[a][i := v]]);
    assert forall b :: b in h'.vals ==> ValuesOk(h', h'.vals[b]) by {
      forall b | b in h'.vals ensures ValuesOk(h', h'.vals[b]) {
        if b == a {
          assert forall k :: 0 <= k < |h'.vals[b]| ==> h'.vals[b][k] == v || h'.vals[b][k] == h.vals[a][k];
        }
      }
    }
    h'
  }
}
