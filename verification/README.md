# GStringImpl: caching and aliasing of Groovy's default template string

This project models `GStringImpl`, the `GString` the Groovy compiler emits for
an interpolated string such as `"a${x}b"`. An instance holds two arrays: the
literal fragments (`strings`) and the embedded values (`values`). It also holds
three fields that decide when its rendered text may be memoised:

- `frozen` is fixed at construction.
- `cacheable` is decided by a check over the values.
- `cachedStringLiteral` holds the memoised text.

The model covers the public and protected constructors, the cacheability check
`checkValuesStringConstant`, `toString`, the invalidating accessors
`getStrings`/`getValues`, `freeze`, and the part of `plus` that runs before it
hands over to the splice.

## How the model is built

Java's reference semantics are explicit. A `Store.Heap` value maps references
to string-array contents, value-array contents and `GStringImpl` instances. An
instance stores the *references* of its arrays. So "aliased" means the same
reference, and "fresh copy" means a reference the heap before the call did not
use, holding equal contents.

`Heap.held` is the set of arrays the calling code has a reference to. These are
arrays it allocated, or arrays an accessor handed back. The calling code can
only write those arrays (`Store.WriteString`, `Store.WriteValue`). This is how
Java reachability is expressed.

Every operation is a pure function from the heap before the call to the heap
after it (plus its result). `Store.Valid` is the heap invariant. Its key part is
`FrozenPrivate`: a frozen instance's arrays are held by nobody else, neither the
calling code nor another instance.

The environment `Values.Env` stands for what the model cannot see:

- the set of immutable classes (`ImmutablePropertyUtils.builtinOrMarkedImmutableClass`);
- the set of classes whose `toString` carries `@Pure` (`toStringMarkedPure`);
- the base class's text rendering `GString.toString()`, an uninterpreted
  function over the contents of the two arrays.

`Lifecycle` turns the operations into steps (`Op`, `Step`, `Run`): allocating
arrays, writing arrays the calling code holds, and calling the modelled
`GStringImpl` operations. Properties are stated over any sequence of these
steps. No step changes the state of an embedded object.

Modules: `Values` (values and the environment), `Store` (the heap),
`GStringImpl` (the operations of the class), `Lifecycle` (sequences of calls).

## Model

| member | source | states |
|---|---|---|
| GStringImpl.ValuesCacheable | src/main/java/org/codehaus/groovy/runtime/GStringImpl.java:490-501 | the early-exit scan accepts iff every value is null, of an immutable class, of a class with a pure `toString`, or a cacheable GStringImpl |
| GStringImpl.CacheableAppend | src/main/java/org/codehaus/groovy/runtime/GStringImpl.java:490-501 | the check is all-or-nothing: it accepts a concatenation of value arrays iff it accepts both parts |
| GStringImpl.NullsAreSkipped | src/main/java/org/codehaus/groovy/runtime/GStringImpl.java:491-492 | nulls never matter: an all-null or empty array is accepted, and appending a null keeps the verdict |
| GStringImpl.PureMarkerDecides | src/main/java/org/codehaus/groovy/runtime/GStringImpl.java:493-494 | for values of one non-immutable class, the purity marker on that class alone decides acceptance, in both directions |
| GStringImpl.NestedCacheable | src/main/java/org/codehaus/groovy/runtime/GStringImpl.java:495 | an embedded GStringImpl is accepted iff its class is safe or its own `cacheable` flag is set |
| GStringImpl.NestedFlagFixedAtConstruction | src/main/java/org/codehaus/groovy/runtime/GStringImpl.java:61-63 | a parent built over a cacheable nested instance stays cacheable after the nested instance hands out its strings and stops being cacheable |
| GStringImpl.NewGString | src/main/java/org/codehaus/groovy/runtime/GStringImpl.java:81-87 | protected constructor: a frozen instance gets fresh arrays equal in contents; a non-frozen one stores the given arrays themselves; the flags and cache are stored as passed; nothing existing changes |
| GStringImpl.Construct | src/main/java/org/codehaus/groovy/runtime/GStringImpl.java:61-63 | public constructor: a new non-frozen instance with no cache, aliasing the caller's arrays, cacheable iff every value passes the per-value test |
| GStringImpl.Freeze | src/main/java/org/codehaus/groovy/runtime/GStringImpl.java:116-118 | a new frozen instance over fresh copies with equal contents, carrying `cacheable` and the cache over; the receiver and all arrays are unchanged |
| GStringImpl.GetStrings | src/main/java/org/codehaus/groovy/runtime/GStringImpl.java:127-135 | frozen: a fresh copy, no instance changes; non-frozen: the live array itself, with `cacheable := false`, cache dropped, and nothing else changed |
| GStringImpl.GetValues | src/main/java/org/codehaus/groovy/runtime/GStringImpl.java:137-145 | the same as `getStrings` for the value array |
| GStringImpl.ToString | src/main/java/org/codehaus/groovy/runtime/GStringImpl.java:478-488 | a cached text is returned with no state change; otherwise the text is the rendering of the current contents, cached exactly when `cacheable` holds |
| GStringImpl.Plus | src/main/java/org/codehaus/groovy/runtime/GStringImpl.java:89-93 | the splice receives the receiver's own live arrays and fresh copies of the operand's contents; neither instance's flags or cache change |
| Lifecycle.ToStringTwice | src/main/java/org/codehaus/groovy/runtime/GStringImpl.java:479-487 | two `toString` calls with nothing in between return equal text; the second changes nothing; a cacheable instance ends up holding the text |
| Lifecycle.StepFrozenEvolves | src/main/java/org/codehaus/groovy/runtime/GStringImpl.java:128-145 | any single call keeps every frozen instance frozen over the same arrays, contents and `cacheable`; its cache only moves from absent to the rendering of its contents |
| Lifecycle.RunFrozenEvolves | src/main/java/org/codehaus/groovy/runtime/GStringImpl.java:81-87 | the same holds across any sequence of calls, including direct writes to every array the calling code holds |
| Lifecycle.FrozenToStringStable | src/main/java/org/codehaus/groovy/runtime/GStringImpl.java:479-487 | a frozen instance's `toString` returns the same text before and after any sequence of modelled steps, given a rendering that reads only the two arrays' contents |
| Lifecycle.FrozenCachedTextFixed | src/main/java/org/codehaus/groovy/runtime/GStringImpl.java:480-482 | once a frozen instance holds a cached text, every later `toString` returns exactly that text, after any sequence of steps |
| Lifecycle.RunCachedOnlyIfCacheable | src/main/java/org/codehaus/groovy/runtime/GStringImpl.java:484-486 | every sequence of steps keeps the invariant that only a cacheable instance holds a cached text |
| Lifecycle.FreezeSnapshot | src/main/java/org/codehaus/groovy/runtime/GStringImpl.java:116-118 | after `freeze` and any later calls, writes to the receiver's arrays among them, the copy still holds the receiver's contents at freeze time and its `cacheable` |
| Lifecycle.AccessorsKeepFrozen | src/main/java/org/codehaus/groovy/runtime/GStringImpl.java:129-131 | any number of `getStrings`/`getValues` calls leave a frozen instance exactly as it was |
| Lifecycle.UncacheableStaysUncached | src/main/java/org/codehaus/groovy/runtime/GStringImpl.java:484-486 | an instance that is not cacheable and holds no cache never caches again |
| Lifecycle.StepKeepsCoherent | src/main/java/org/codehaus/groovy/runtime/GStringImpl.java:132-134 | every call except a direct write into a cached instance's array keeps each cached text equal to the rendering of its instance's current contents |
| Lifecycle.DirectWriteLeavesStaleCache | src/main/java/org/codehaus/groovy/runtime/GStringImpl.java:61-63 | a concrete run: a write to the array passed to the constructor, after a cached `toString`, leaves the instance answering with stale text |
| Lifecycle.WriteThroughGetStrings | src/main/java/org/codehaus/groovy/runtime/GStringImpl.java:120-135 | a write through the array `getStrings` returned shows in the next `toString` on a non-frozen instance, even after caching; on a frozen one it does not |
| Lifecycle.WriteThroughGetValues | src/main/java/org/codehaus/groovy/runtime/GStringImpl.java:137-145 | the same for the array `getValues` returned |

The cacheable check reads the nested instance's flag from the heap at the time
of the check (`SafeValue`). The scan in `ValuesCacheable` follows the Java loop:
it skips nulls and stops at the first unsafe value.

### Concatenation

- `plus` calls `freeze()` on every GStringImpl operand, frozen or not
  (line 91).
- The result's `cacheable` flag is set inside `GStringUtil.plusImpl`, which is
  not part of this model. `CacheableAppend` proves the fact at the level of
  the check: the check over the joined values is the conjunction of the checks
  over each half.

### Aliasing

Caching rests on two things: the cacheability check at construction
(lines 490-501) and the invalidation in the accessors (lines 132-133,
142-143). Non-frozen instances cache too (lines 484-486).

A frozen instance's arrays cannot be reached by anyone, so their contents
never change (`FreezeSnapshot`), and a cached text, once present, stays
(`FrozenCachedTextFixed`).

A non-frozen instance shares its arrays with the code that built it.
`getStrings`/`getValues` invalidate the cache when they hand an array out. But nothing stops the constructor's caller from writing to the
arrays it passed in, and such a write leaves the cache stale
(`DirectWriteLeavesStaleCache`). Compiler-generated code never keeps those
arrays, so this is recorded as a property of the design, not as a defect.

## Left out

- Text rendering: `GString.toString()` (the base class) is an uninterpreted
  function `Env.render` over the contents of the two arrays. The interleaving,
  the `"null"` text for null values, and the recursive rendering of nested
  instances are not modelled. In particular, a nested non-frozen GStringImpl
  whose arrays change after its parent cached its text is invisible to the
  model.
- `ImmutablePropertyUtils.builtinOrMarkedImmutableClass` and the
  reflection-based `toStringMarkedPure` (lines 503-511) are the two class sets
  in `Env`. The exceptions `getMethod` can raise, which answer false, are
  covered by a class simply not being in the set.
- `GStringUtil.plusImpl`, the splice with its literal fusion (line 92): not
  shown, so `Plus` stops at the call and returns its four arguments. With a
  frozen receiver those arguments include the receiver's private arrays. The
  heap invariant after `plus`, and the results built on it
  (`RunFrozenEvolves`, `FreezeSnapshot`), assume the splice only reads those
  arrays and neither keeps them nor stores them in a new instance.
- `writeTo`, `build` and `calcInitialCapacity` (lines 95-111) only delegate to
  `GStringUtil` with `super.getValues()` and `strings`. Those bodies are not
  part of this model.
- `plus` with an operand that is a `GString` but not a `GStringImpl` (line 91):
  every instance in the heap is a GStringImpl, so only that branch is modelled.
- The text-query methods `trim` through `intern` (lines 147-476) call
  `toString()` and then a `java.lang.String` method. They have no logic of
  their own.
- The length constraint between `strings` and `values` (lines 49-56) is
  unchecked in the source and is not imposed here.
- Null array arguments (a `NullPointerException` in the source): instances
  always hold allocated arrays.
- Thread safety of the unsynchronised cache fields, serialization, and
  charset or locale handling.
- Lifecycle.FrozenToStringStable: holds because `Env.render` reads only the
  two arrays' contents. In the source, a frozen instance that is not cacheable
  renders again on every call (lines 483-486). So its text changes when an
  embedded mutable object changes (a `StringBuilder`, say), or when a nested
  non-frozen GStringImpl is written through its `getStrings` array. The lemma
  carries over only to frozen instances whose values render stably.
  `FrozenCachedTextFixed` is the part that holds whatever the rendering reads.
- Lifecycle.StepKeepsCoherent: "coherent" means equal to the rendering of the
  instance's own two arrays. In the source, a cacheable parent's cache also
  goes stale when a nested non-frozen GStringImpl embedded in it is written
  through that instance's exposed array, or when an embedded object's state
  changes. Neither is a step of the model.
- Rendering failures: an exception from a value's own `toString` is not
  modelled, because `Env.render` is total.
