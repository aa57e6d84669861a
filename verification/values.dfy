/** Embedded values of a template string, and the environment that classifies
    them and renders template contents to text. */
module Values {

  /** A reference to a heap cell: an array or a GStringImpl instance. */
  type Ref = nat

  /** The name of a runtime class. */
  type ClassName = string

  datatype Option<+T> = None | Some(value: T)

  /** A value embedded in a template string.
      `Null` is Java's null; `Plain` is an object of class `cls` (told apart by
      `id`); `GStr` is an instance of GStringImpl, or of its subclass `cls`,
      whose mutable state lives at `ref` in the heap. */
  datatype Value =
    | Null
    | Plain(cls: ClassName, id: nat)
    | GStr(cls: ClassName, ref: Ref)

  /** What the running program knows about classes, and the text rendering of
      the GString base class.
      - `immutableClasses`: the classes that are built-in immutable or marked
        immutable;
      - `pureToStringClasses`: the classes whose public `toString` carries the
        purity marker;
      - `render`: the base class's interleaving of strings and values, over
        the contents of the two arrays. */
  datatype Env = Env(
    immutableClasses: set<ClassName>,
    pureToStringClasses: set<ClassName>,
    render: (seq<Value>, seq<string>) -> string)

  /** The class-based part of the per-value test: the runtime class is
      immutable or renders purely. */
  predicate ClassSafe(env: Env, cls: ClassName)
  {
    cls in env.immutableClasses || cls in env.pureToStringClasses
  }
}
