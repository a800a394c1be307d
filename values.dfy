/**
 * A table cell as pandas holds it after reading JSON lines: nothing
 * (`None`/`NaN`), a string, or a Python list of further values.
 */
module Values {

  datatype Value = Null | Str(s: string) | List(items: seq<Value>)

  /**
   * Python truthiness, as `filter(None, ...)` uses it. `Null` stands for
   * `None` here: Python counts `NaN` as truthy, which is not modelled.
   */
  predicate Truthy(v: Value)
  {
    match v
    case Null => false
    case Str(s) => s != ""
    case List(items) => items != []
  }

  /** `hash(v)` succeeds: strings and `None` are hashable, lists are not. */
  predicate Hashable(v: Value)
  {
    !v.List?
  }

  /** `len(v)`, defined for strings and lists. */
  function Len(v: Value): nat
    requires !v.Null?
  {
    match v
    case Str(s) => |s|
    case List(items) => |items|
  }

  /** Iterating over a string yields its characters as one-character strings. */
  function Chars(s: string): (cs: seq<Value>)
    ensures |cs| == |s|
    ensures forall i :: 0 <= i < |s| ==> cs[i] == Str([s[i]])
  {
    seq(|s|, i requires 0 <= i < |s| => Str([s[i]]))
  }

  /** Lifts a list of Python strings to a list cell. */
  function StrList(fragments: seq<string>): (v: Value)
    ensures v.List? && |v.items| == |fragments|
    ensures forall i :: 0 <= i < |fragments| ==> v.items[i] == Str(fragments[i])
  {
    List(seq(|fragments|, i requires 0 <= i < |fragments| => Str(fragments[i])))
  }
}
