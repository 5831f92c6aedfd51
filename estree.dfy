/**
 * The syntax tree the parser hands to the rewrite pass, seen as the plain
 * JavaScript data it is: objects with named fields, arrays, strings, numbers,
 * booleans and null.  ESTree nodes are objects whose "type" field names their
 * kind; nothing here fixes which fields a kind has, so a node may lack any of
 * them.  The module also models the safe path lookup of the object-path
 * library (`ObjPath.get`), which the matcher relies on.
 */
module Estree {
  import opened Wrappers

  /** A JavaScript value inside the tree.  Numbers are never inspected by the
      rewrite pass and are kept as integers. */
  datatype Value =
    | Null
    | Bool(b: bool)
    | Num(n: int)
    | Str(s: string)
    | Arr(items: seq<Value>)
    | Obj(fields: map<string, Value>)

  /** A dotted path such as "expression.callee.object.name", already split at
      its dots. */
  type Path = seq<string>

  /**
   * Safe path lookup: follows the segments of `path` through own fields of
   * objects.  A missing field, or a segment applied to null or to any value
   * that is not an object, yields `None` instead of a fault: a lookup that
   * succeeds went through an own field of an object.  The empty path yields
   * the value itself.
   */
  function Get(v: Value, path: Path): (r: Option<Value>)
    ensures path == [] ==> r == Some(v)
    ensures path != [] && r.Some? ==> v.Obj? && path[0] in v.fields
    ensures path != [] && (v.Null? || v.Str?) ==> r == None
    ensures |path| == 1 ==> r == (if v.Obj? && path[0] in v.fields then Some(v.fields[path[0]]) else None)
    decreases |path|
  {
    if path == [] then Some(v)
    else match v
      case Obj(fields) =>
        if path[0] in fields then Get(fields[path[0]], path[1..]) else None
      case _ => None
  }

  /** Continues a lookup from an optional intermediate value. */
  function GetFrom(o: Option<Value>, path: Path): Option<Value>
  {
    match o
    case None => None
    case Some(w) => Get(w, path)
  }

  /** Looking up `p + q` is looking up `p` and then `q` from what was found. */
  lemma {:induction false} GetAppend(v: Value, p: Path, q: Path)
    ensures Get(v, p + q) == GetFrom(Get(v, p), q)
    decreases |p|
  {
    if p == [] {
      assert p + q == q;
    } else {
      assert (p + q)[0] == p[0] && (p + q)[1..] == p[1..] + q;
      match v
      case Obj(fields) =>
        if p[0] in fields {
          GetAppend(fields[p[0]], p[1..], q);
        }
      case _ =>
    }
  }

  /** Once a segment is absent, every longer path through it is absent too:
      the lookup never revives after `undefined`. */
  lemma AbsentStaysAbsent(v: Value, p: Path, q: Path)
    requires Get(v, p) == None
    ensures Get(v, p + q) == None
  {
    GetAppend(v, p, q);
  }
}
