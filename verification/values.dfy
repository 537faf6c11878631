/** The Python values that configuration files, JSON documents and task
    options carry: `None`, booleans, integers, floats, strings, paths,
    lists, tuples, sets and string-keyed dictionaries. A dictionary is its
    list of entries in insertion order, each key once; a set is its
    elements in iteration order; a float carries the text Python prints for
    it. */
module PyValues {
  import opened Text
  import opened Wrappers
  import opened OrderedDicts

  datatype Value =
    | VNone
    | VBool(b: bool)
    | VInt(i: int)
    | VFloat(x: real, text: string)
    | VStr(s: string)
    | VPath(path: string)
    | VList(items: seq<Value>)
    | VTuple(items: seq<Value>)
    | VSet(items: seq<Value>)
    | VDict(entries: seq<(string, Value)>)

  /** `bool(v)` */
  predicate Truthy(v: Value) {
    match v
    case VNone => false
    case VBool(b) => b
    case VInt(i) => i != 0
    case VFloat(x, _) => x != 0.0
    case VStr(s) => s != []
    case VPath(_) => true
    case VList(items) => items != []
    case VTuple(items) => items != []
    case VSet(items) => items != []
    case VDict(entries) => entries != []
  }

  /** `a or b` */
  function Or(a: Value, b: Value): (r: Value)
    ensures Truthy(a) ==> r == a
    ensures !Truthy(a) ==> r == b
  {
    if Truthy(a) then a else b
  }

  // ------------------------------------------------------------ dictionaries

  /** `d.get(key, default)` */
  function GetOr(entries: seq<(string, Value)>, key: string, default: Value): (r: Value)
    ensures HasKey(entries, key) ==> Get(entries, key) == Some(r)
    ensures !HasKey(entries, key) ==> r == default
  {
    match Get(entries, key)
    case Some(v) => v
    case None => default
  }

  /** The keys of a dictionary, in order. */
  function Keys(entries: seq<(string, Value)>): (r: seq<string>)
    ensures |r| == |entries| && forall k :: 0 <= k < |r| ==> r[k] == entries[k].0
  {
    seq(|entries|, k requires 0 <= k < |entries| => entries[k].0)
  }

  // ------------------------------------------------------------ str / repr

  /** `str(v)` */
  function Str(v: Value): string {
    match v
    case VStr(s) => s
    case VPath(p) => p
    case _ => Repr(v)
  }

  /** `repr(v)` */
  function Repr(v: Value): string
    decreases v, 1
  {
    match v
    case VStr(s) => "'" + s + "'"
    case VPath(p) => "PosixPath('" + p + "')"
    case VList(items) => "[" + Join(", ", Reprs(v, items)) + "]"
    case VTuple(items) =>
      if |items| == 1 then "(" + Repr(items[0]) + ",)" else "(" + Join(", ", Reprs(v, items)) + ")"
    case VSet(items) => if items == [] then "set()" else "{" + Join(", ", Reprs(v, items)) + "}"
    case VDict(entries) => "{" + Join(", ", EntryReprs(v, entries)) + "}"
    case VNone => "None"
    case VBool(b) => if b then "True" else "False"
    case VInt(i) => IntToString(i)
    case VFloat(_, text) => text
  }

  function Reprs(v: Value, items: seq<Value>): (r: seq<string>)
    requires v.VList? || v.VTuple? || v.VSet?
    requires items == v.items
    decreases v, 0
  {
    seq(|items|, k requires 0 <= k < |items| => Repr(items[k]))
  }

  function EntryReprs(v: Value, entries: seq<(string, Value)>): (r: seq<string>)
    requires v.VDict? && entries == v.entries
    decreases v, 0
  {
    seq(|entries|, k requires 0 <= k < |entries| => "'" + entries[k].0 + "': " + Repr(entries[k].1))
  }

  /** Only a string, a path or a float can print as nothing: `None`, a
      boolean, an integer and every container print as non-empty text. */
  lemma StrNonEmpty(v: Value)
    requires !v.VStr? && !v.VPath? && !v.VFloat?
    ensures Str(v) != [] && !IsSpace(Str(v)[0])
  {
    match v
    case VInt(i) =>
      IntToStringSign(i);
      if i >= 0 {
        assert IsDigit(NatToString(i)[0]);
      }
    case _ =>
  }
}
