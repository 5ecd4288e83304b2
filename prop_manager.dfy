/** PropManager of geode/value/PropManager.cpp: a registry of named properties with a frozen flag. */
module PropManager {

  /**
   * A property's C++ type: type_info identity and its mangled name. Two types count as
   * different only when both the identity and the name differ.
   */
  datatype TypeInfo = TypeInfo(id: int, name: string)

  /** What the registry needs of a property: its name, its type and its default value (compared as a whole). */
  datatype Prop = Prop(name: string, ty: TypeInfo, default: string)

  datatype Error = ValueError(msg: string) | TypeError(msg: string) | KeyError(msg: string)

  datatype Result<T> = Ok(value: T) | Err(error: Error)

  predicate TypesDiffer(a: TypeInfo, b: TypeInfo)
  {
    a.id != b.id && a.name != b.name
  }

  class PropManager {
    /** Props by name. */
    var items: map<string, Prop>
    /** Names in the order they were first added. */
    var order: seq<string>
    /** Once set, no new name may be added. */
    var frozen: bool

    /** order lists each key of items exactly once, and every prop is filed under its own name. */
    ghost predicate Valid()
      reads this
    {
      && (forall i, j :: 0 <= i < j < |order| ==> order[i] != order[j])
      && (forall name :: name in items <==> name in order)
      && (forall name :: name in items ==> items[name].name == name)
    }

    constructor ()
      ensures Valid() && items == map[] && order == [] && !frozen
    {
      items, order, frozen := map[], [], false;
    }

    /**
     * add(prop): a name with a dash is a ValueError; a new name is a TypeError while frozen
     * and is otherwise registered and appended to order; an existing name must have the same
     * type (else TypeError) and the same default (else ValueError), and yields the stored prop.
     */
    method Add(prop: Prop) returns (r: Result<Prop>)
      requires Valid()
      modifies this
      ensures Valid() && frozen == old(frozen)
      ensures '-' in prop.name ==> r.Err? && r.error.ValueError? && items == old(items) && order == old(order)
      ensures '-' !in prop.name && prop.name !in old(items) && old(frozen) ==>
        r.Err? && r.error.TypeError? && items == old(items) && order == old(order)
      ensures '-' !in prop.name && prop.name !in old(items) && !old(frozen) ==>
        r == Ok(prop) && items == old(items)[prop.name := prop] && order == old(order) + [prop.name]
      ensures '-' !in prop.name && prop.name in old(items) ==> items == old(items) && order == old(order)
      ensures '-' !in prop.name && prop.name in old(items) && TypesDiffer(prop.ty, old(items)[prop.name].ty) ==>
        r.Err? && r.error.TypeError?
      ensures '-' !in prop.name && prop.name in old(items) && !TypesDiffer(prop.ty, old(items)[prop.name].ty) ==>
        if prop.default != old(items)[prop.name].default then r.Err? && r.error.ValueError?
        else r == Ok(old(items)[prop.name])
    {
      var name := prop.name;
      if '-' in name {
        return Err(ValueError("prop name '" + name + "' contains a dash; use an underscore instead"));
      }
      if name !in items {
        if frozen {
          return Err(TypeError("prop manager is frozen, can't create new property '" + name + "'"));
        }
        items := items[name := prop];
        order := order + [name];
        return Ok(prop);
      }
      var stored := items[name];
      if TypesDiffer(prop.ty, stored.ty) {
        return Err(TypeError("Property '" + name + "' accessed with type " + prop.ty.name + ", but has type " + stored.ty.name));
      }
      if prop.default != stored.default {
        return Err(ValueError("Trying to add property '" + name + "' with default " + prop.default + ", but old default was " + stored.default));
      }
      return Ok(stored);
    }

    /** contains(name): the name is a key of items. */
    predicate Contains(name: string)
      reads this
      ensures Contains(name) <==> name in items
    {
      MapCount(items, name) != 0
    }

    /** get_ptr(name): the stored prop, or null when the name is absent. */
    function GetPtr(name: string): (r: Option<Prop>)
      reads this
      ensures r.None? <==> name !in items
      ensures r.Some? ==> r.value == items[name]
    {
      if name in items then Some(items[name]) else None
    }

    /** get(name): the stored prop, or a KeyError exactly when get_ptr finds nothing. */
    function Get(name: string): (r: Result<Prop>)
      reads this
      ensures r.Err? <==> GetPtr(name).None?
      ensures r.Err? ==> r.error.KeyError?
      ensures r.Ok? ==> r.value == items[name]
    {
      match GetPtr(name)
      case Some(p) => Ok(p)
      case None => Err(KeyError("No value named '" + name + "' exists"))
    }
  }

  datatype Option<T> = None | Some(value: T)

  /** std::map::count: each key is present at most once. */
  function MapCount<K, V>(m: map<K, V>, k: K): (c: nat)
    ensures c <= 1 && (c == 1 <==> k in m)
  {
    if k in m then 1 else 0
  }
}
