/**
 * The deflated form of a memory view, as it travels over a message channel.
 * A wire element is a primitive, a list (the JavaScript arrays `deflate`
 * emits, tagged by their first item) or a record (a plain object literal).
 * Tags and back-references are strings inside primitives, as in the
 * library: `#` literal string, `*` back-reference, `<` `>` `=` function
 * magic, `@` `$` symbols, `A` `O` `M` `S` object shells.
 */
module Wire {
  import opened Wrappers
  import opened Model
  import Radix

  datatype Wire =
    | WPrim(p: Prim)
    | WList(items: seq<Wire>)
    | WRec(fields: seq<(string, Wire)>)

  /**
   * Errors the library reports, one constructor per throw site; the
   * engine's `TypeError` when a `WeakMap` is given a key that cannot be held
   * weakly (`InvalidWeakKey`, with V8's message); and two wire shapes the
   * model rejects: `Malformed` is a wire shape `deflate`
   * never produces (a nested list where a child slug belongs, a key/value
   * entry that is not a pair); `Mismatch` is an override object whose kind
   * does not fit the incoming element. `Thrown` gives the JavaScript error
   * class and message of each of the library's own errors.
   */
  datatype Error =
    | UnknownMagic(magic: string)
    | UnknownFnMagic(magic: string)
    | ReflectionNotFound(id: string)
    | ItemNotFound
    | AmbiguousCounterpart(count: nat)
    | DefineOnNonObject
    | RedefineView
    | InvalidWeakKey
    | Malformed
    | Mismatch
  {
    function Thrown(): Option<(string, string)> {
      match this
      case UnknownMagic(m) => Some(("TypeError", "[RPC Magic Proxy] inflate: Unknown magic " + m))
      case UnknownFnMagic(m) => Some(("TypeError", "Unknown fn magic \"" + m + "\""))
      case ReflectionNotFound(id) => Some(("ReferenceError", "RPC local reflection not found: " + id))
      case ItemNotFound => Some(("ReferenceError", "Item not found in memory view"))
      case AmbiguousCounterpart(n) =>
        Some(("Error", "Counterpart can only be omitted for a dedicated context, currently got " + Radix.Decimal(n) + " counterparts"))
      case DefineOnNonObject => Some(("TypeError", "Object.defineProperty called on non-object"))
      case RedefineView => Some(("TypeError", "Cannot redefine property: Symbol(Memory View)"))
      case InvalidWeakKey => Some(("TypeError", "Invalid value used as weak map key"))
      case Malformed => None
      case Mismatch => None
    }
  }

  function WStr(s: string): Wire {
    WPrim(Str(s))
  }

  /** The string a wire element holds, if it is a string primitive. */
  function AsString(w: Wire): (r: Option<string>)
    ensures r.Some? <==> w.WPrim? && w.p.Str?
    ensures r.Some? ==> w == WStr(r.value)
  {
    if w.WPrim? && w.p.Str? then Some(w.p.s) else None
  }
}
