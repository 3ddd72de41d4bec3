/**
  The SQL side of the type table in `src/lib.rs`: the affinities, the SQL
  type record, and the table the extension module seeds when it is loaded.
 */
module SqlTypes {
  import opened TypeLut

  /** Coarse storage class of a column. */
  datatype TypeAffinity = Integer | Text | Blob | Real | Numeric

  /** Affinity and nullability of a host type. */
  datatype SqlType = SqlType(affinity: TypeAffinity, nullable: bool)

  /**
    The seeding done when the extension module is initialised: `int` as a
    non-nullable integer (registered twice), then `dict` and `bytes` as
    non-nullable blobs. The type identities come from the host runtime and are
    distinct objects.
   */
  method SeedTypeLut(intType: TypePtr, dictType: TypePtr, bytesType: TypePtr)
    returns (lut: PyTypeLut<SqlType>)
    requires intType != dictType && intType != bytesType && dictType != bytesType
    ensures fresh(lut)
    ensures lut.table.Keys == {intType, dictType, bytesType}
    ensures lut.table[intType] == SqlType(Integer, false)
    ensures lut.table[dictType] == SqlType(Blob, false)
    ensures lut.table[bytesType] == SqlType(Blob, false)
    ensures lut.table == SeededTable(intType, dictType, bytesType)
  {
    lut := new PyTypeLut();
    lut.AddTypeExplicit(intType, SqlType(Integer, false));
    ghost var once := lut.table;
    lut.AddTypeExplicit(intType, SqlType(Integer, false));
    RegisterIdempotent(once, intType, SqlType(Integer, false));
    assert lut.table == once;
    lut.AddTypeExplicit(dictType, SqlType(Blob, false));
    lut.AddTypeExplicit(bytesType, SqlType(Blob, false));
  }

  /** The table `SeedTypeLut` leaves behind. */
  function SeededTable(intType: TypePtr, dictType: TypePtr, bytesType: TypePtr): map<TypePtr, SqlType> {
    map[intType := SqlType(Integer, false), dictType := SqlType(Blob, false), bytesType := SqlType(Blob, false)]
  }

  /**
    On the seeded table, a type that is a subclass of `int` and of neither
    `dict` nor `bytes` (such as `bool`) is classified as a non-nullable
    integer, whatever the iteration order, and is cached as such.
   */
  lemma IntSubclassIsInteger(intType: TypePtr, dictType: TypePtr, bytesType: TypePtr, t: TypePtr,
                             order: seq<TypePtr>, isSubclass: (TypePtr, TypePtr) -> bool)
    requires intType != dictType && intType != bytesType && dictType != bytesType
    requires t !in {intType, dictType, bytesType}
    requires Enumerates(order, SeededTable(intType, dictType, bytesType))
    requires isSubclass(t, intType) && !isSubclass(t, dictType) && !isSubclass(t, bytesType)
    ensures var (r, m') := IndexStep(SeededTable(intType, dictType, bytesType), order, t, isSubclass);
      r == Ok(SqlType(Integer, false)) && m' == SeededTable(intType, dictType, bytesType)[t := SqlType(Integer, false)]
  {
    UniqueSupertypeDecides(SeededTable(intType, dictType, bytesType), t, intType, order, isSubclass);
  }

  /** On the seeded table, `int`, `dict` and `bytes` are exact hits with the seeded types. */
  lemma SeededLookups(intType: TypePtr, dictType: TypePtr, bytesType: TypePtr,
                      order: seq<TypePtr>, isSubclass: (TypePtr, TypePtr) -> bool)
    requires intType != dictType && intType != bytesType && dictType != bytesType
    requires Enumerates(order, SeededTable(intType, dictType, bytesType))
    ensures var m := SeededTable(intType, dictType, bytesType);
      IndexStep(m, order, intType, isSubclass) == (Ok(SqlType(Integer, false)), m) &&
      IndexStep(m, order, dictType, isSubclass) == (Ok(SqlType(Blob, false)), m) &&
      IndexStep(m, order, bytesType, isSubclass) == (Ok(SqlType(Blob, false)), m)
  {
  }
}
