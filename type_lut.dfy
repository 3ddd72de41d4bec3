/**
  `PyTypeLut<T>` of `src/lib.rs`: a table from host type identities to values
  that answers exact hits directly and, on a miss, classifies a type by the
  first registered type it is a subclass of, caching the answer under the new
  type.
 */
module TypeLut {

  /** The identity of a host type object (a `*mut PyTypeObject`, compared by address). */
  type TypePtr = nat

  datatype Option<T> = None | Some(value: T)

  /** `Result<T, ()>`: a value, or the unit error of an unclassifiable type. */
  datatype Lookup<T> = Ok(value: T) | Err

  /**
    `order` is one pass of the table's iterator: it lists exactly the table's
    keys. The hash map promises no particular order, so every member that
    scans takes the order as a parameter.
   */
  ghost predicate Enumerates<T>(order: seq<TypePtr>, m: map<TypePtr, T>) {
    forall k :: k in order <==> k in m
  }

  /** Position of the first key in `order` that `t` is a subclass of, if any. */
  function FirstSupertype(order: seq<TypePtr>, t: TypePtr, isSubclass: (TypePtr, TypePtr) -> bool): (r: Option<nat>)
    ensures r.Some? ==> r.value < |order| && isSubclass(t, order[r.value])
    ensures r.Some? ==> forall j :: 0 <= j < r.value ==> !isSubclass(t, order[j])
    ensures r.None? ==> forall j :: 0 <= j < |order| ==> !isSubclass(t, order[j])
  {
    if order == [] then None
    else if isSubclass(t, order[0]) then Some(0)
    else match FirstSupertype(order[1..], t, isSubclass)
      case None => None
      case Some(i) => Some(i + 1)
  }

  /**
    What one `get_or_index(t)` answers and what the table is afterwards, when
    the table was `m` and its iterator yields `order`.
   */
  function IndexStep<T>(m: map<TypePtr, T>, order: seq<TypePtr>, t: TypePtr,
                        isSubclass: (TypePtr, TypePtr) -> bool): (r: (Lookup<T>, map<TypePtr, T>))
    requires Enumerates(order, m)
    // No entry that was there is changed or removed.
    ensures forall k :: k in m ==> k in r.1 && r.1[k] == m[k]
    // At most `t` is added, and only when the answer is a value.
    ensures forall k :: k in r.1 ==> k in m || (k == t && r.0.Ok?)
    // A value is answered exactly when `t` is registered afterwards, under that value.
    ensures r.0.Ok? <==> t in r.1
    ensures r.0.Ok? ==> r.1[t] == r.0.value
    // The value is that of `t` itself or of a registered supertype of `t`.
    ensures r.0.Ok? ==> exists k :: k in m && m[k] == r.0.value && (k == t || isSubclass(t, k))
    // `Err` exactly when `t` is unknown and no registered type is a supertype of it.
    ensures r.0.Err? <==> t !in m && forall k :: k in m ==> !isSubclass(t, k)
  {
    if t in m then (Ok(m[t]), m)
    else match FirstSupertype(order, t, isSubclass)
      case Some(i) => (Ok(m[order[i]]), m[t := m[order[i]]])
      case None => (Err, m)
  }

  class PyTypeLut<T> {
    var table: map<TypePtr, T>

    /** `PyTypeLut::new`: an empty table. */
    constructor ()
      ensures table == map[]
    {
      table := map[];
    }

    /** `add_type_explicit`: insert, or overwrite, the entry for `ptype`. */
    method AddTypeExplicit(ptype: TypePtr, associated: T)
      modifies this
      ensures table == old(table)[ptype := associated]
    {
      table := table[ptype := associated];
    }

    /**
      `get_or_index`: an exact hit returns the stored value; otherwise the
      keys are scanned in iteration order and the first one `ptype` is a
      subclass of gives its value, which is also stored under `ptype`; with
      no such key the answer is `Err` and the table is untouched.
     */
    method GetOrIndex(ptype: TypePtr, order: seq<TypePtr>, isSubclass: (TypePtr, TypePtr) -> bool)
      returns (r: Lookup<T>)
      requires Enumerates(order, table)
      modifies this
      ensures (r, table) == IndexStep(old(table), order, ptype, isSubclass)
    {
      if ptype in table {
        return Ok(table[ptype]);
      }
      for i := 0 to |order|
        invariant table == old(table)
        invariant forall j :: 0 <= j < i ==> !isSubclass(ptype, order[j])
      {
        var key := order[i];
        if isSubclass(ptype, key) {
          var v := table[key];
          table := table[ptype := v];
          return Ok(v);
        }
      }
      return Err;
    }
  }

  /** After `add_type_explicit(t, v)`, looking up `t` answers `v` without touching the table. */
  lemma LookupAfterRegister<T>(m: map<TypePtr, T>, t: TypePtr, v: T, order: seq<TypePtr>,
                               isSubclass: (TypePtr, TypePtr) -> bool)
    requires Enumerates(order, m[t := v])
    ensures IndexStep(m[t := v], order, t, isSubclass) == (Ok(v), m[t := v])
  {
  }

  /** Registering the same entry twice is the same as registering it once. */
  lemma RegisterIdempotent<T>(m: map<TypePtr, T>, t: TypePtr, v: T)
    ensures m[t := v][t := v] == m[t := v]
  {
  }

  /** An exact hit answers the stored value and leaves the table as it was. */
  lemma ExactHit<T>(m: map<TypePtr, T>, t: TypePtr, order: seq<TypePtr>,
                    isSubclass: (TypePtr, TypePtr) -> bool)
    requires Enumerates(order, m) && t in m
    ensures IndexStep(m, order, t, isSubclass) == (Ok(m[t]), m)
  {
  }

  /**
    On a miss, a success comes from a registered supertype and caches its
    value under the queried type, changing nothing else; a failure happens
    exactly when no registered key is a supertype, and changes nothing.
   */
  lemma MissOutcome<T>(m: map<TypePtr, T>, t: TypePtr, order: seq<TypePtr>,
                       isSubclass: (TypePtr, TypePtr) -> bool)
    requires Enumerates(order, m) && t !in m
    ensures var (r, m') := IndexStep(m, order, t, isSubclass);
      (r.Ok? ==> (exists k :: k in m && isSubclass(t, k) && m[k] == r.value) && m' == m[t := r.value]) &&
      (r.Err? <==> forall k :: k in m ==> !isSubclass(t, k)) &&
      (r.Err? ==> m' == m)
  {
    var (r, m') := IndexStep(m, order, t, isSubclass);
    match FirstSupertype(order, t, isSubclass)
    case Some(i) =>
      assert order[i] in m && isSubclass(t, order[i]);
    case None =>
      forall k | k in m
        ensures !isSubclass(t, k)
      {
        var j :| 0 <= j < |order| && order[j] == k;
      }
  }

  /** `get_or_index` never removes or changes an entry; at most the queried type is added. */
  lemma IndexOnlyGrows<T>(m: map<TypePtr, T>, t: TypePtr, order: seq<TypePtr>,
                          isSubclass: (TypePtr, TypePtr) -> bool)
    requires Enumerates(order, m)
    ensures var m' := IndexStep(m, order, t, isSubclass).1;
      (forall k :: k in m ==> k in m' && m'[k] == m[k]) &&
      (forall k :: k in m' ==> k in m || k == t)
  {
  }

  /**
    Memoization: after a successful lookup of `t`, the next lookup of `t`, in
    whatever order the grown table is iterated, is an exact hit with the same
    answer.
   */
  lemma Memoized<T>(m: map<TypePtr, T>, t: TypePtr, order: seq<TypePtr>, order': seq<TypePtr>,
                    isSubclass: (TypePtr, TypePtr) -> bool)
    requires Enumerates(order, m) && IndexStep(m, order, t, isSubclass).0.Ok?
    requires Enumerates(order', IndexStep(m, order, t, isSubclass).1)
    ensures var (r, m') := IndexStep(m, order, t, isSubclass);
      IndexStep(m', order', t, isSubclass) == (r, m')
  {
  }

  /**
    A derived type classified through a root keeps its cached value when the
    root is registered again with a different value.
   */
  lemma DerivedSurvivesRootUpdate<T>(m: map<TypePtr, T>, derived: TypePtr, root: TypePtr, w: T,
                                     order: seq<TypePtr>, order': seq<TypePtr>,
                                     isSubclass: (TypePtr, TypePtr) -> bool)
    requires Enumerates(order, m) && derived !in m && root in m
    requires IndexStep(m, order, derived, isSubclass).0.Ok?
    requires Enumerates(order', IndexStep(m, order, derived, isSubclass).1[root := w])
    ensures var (r, m') := IndexStep(m, order, derived, isSubclass);
      IndexStep(m'[root := w], order', derived, isSubclass) == (r, m'[root := w])
  {
  }

  /**
    When exactly one registered key is a supertype of `t`, the answer is that
    key's value whatever order the table is iterated in.
   */
  lemma UniqueSupertypeDecides<T>(m: map<TypePtr, T>, t: TypePtr, root: TypePtr, order: seq<TypePtr>,
                                  isSubclass: (TypePtr, TypePtr) -> bool)
    requires Enumerates(order, m) && t !in m && root in m && isSubclass(t, root)
    requires forall k :: k in m && isSubclass(t, k) ==> k == root
    ensures IndexStep(m, order, t, isSubclass) == (Ok(m[root]), m[t := m[root]])
  {
    var j :| 0 <= j < |order| && order[j] == root;
    match FirstSupertype(order, t, isSubclass)
    case Some(i) =>
      assert order[i] in m;
    case None =>
  }

  /**
    When several registered keys are supertypes of `t`, the one met first in
    the iteration order decides the answer.
   */
  lemma FirstInOrderWins<T>(m: map<TypePtr, T>, t: TypePtr, order: seq<TypePtr>, i: nat,
                            isSubclass: (TypePtr, TypePtr) -> bool)
    requires Enumerates(order, m) && t !in m
    requires i < |order| && isSubclass(t, order[i])
    requires forall j :: 0 <= j < i ==> !isSubclass(t, order[j])
    ensures order[i] in m
    ensures IndexStep(m, order, t, isSubclass) == (Ok(m[order[i]]), m[t := m[order[i]]])
  {
    match FirstSupertype(order, t, isSubclass)
    case Some(i') =>
      assert i' == i;
    case None =>
  }
}
