# pysqlx core, modelled in Dafny

pysqlx is a Python extension, written in Rust, that runs SQL queries through
sqlx and hands rows back as Python objects. This project models and proves two
of its sequential pieces:

- **The text encoder** (`src/str.rs`). `unicode_from_str` turns a UTF-8 string
  into a compact Python string. It chooses between the shared empty string,
  ASCII, one byte per character, two bytes per character and four bytes per
  character. It decides by comparing the byte count with `bytecount::num_chars`,
  then by looking for bytes above 239 and above 195. The chosen writer then
  fills a buffer of `num_chars` code units and a NUL.
- **The type-affinity table** (`src/lib.rs`). `PyTypeLut<T>` maps host type
  identities to values. `add_type_explicit` inserts or overwrites an entry.
  `get_or_index` answers exact hits. On a miss it scans the keys for a
  supertype and caches the first match's value under the new type. Also
  modelled: `TypeAffinity` and `SqlType`, the table seeded at module init, and
  the driver-value to host-value mapping of `SqlxRow::__getitem__`.

Files:

- `seqs.dfy` (module `Seqs`): small facts about slicing, concatenation and
  division by 0x40 that the decoding and writing proofs use.
- `utf8.dfy` (module `Utf8`): UTF-8 as RFC 3629 defines it: well-formedness, decoding, encoding,
  `bytecount::num_chars`, the byte scan, and the lemmas that tie byte
  thresholds to code-point ranges.
- `unicode.dfy` (module `Unicode`): the four writers, `str_impl_kind_scalar` and
  `unicode_from_str`. The object `PyUnicode_New` returns is a class
  `UnicodeObject` holding an `array<int>` of code units plus the NUL.
- `type_lut.dfy` (module `TypeLut`): the class `PyTypeLut<T>`, with a `map` field that its
  methods update in place. `IndexStep` is a pure function that specifies one
  `get_or_index`, and the lemmas about the table are stated over it.
- `sql_types.dfy` (module `SqlTypes`): the datatypes `TypeAffinity` and `SqlType`
  (src/lib.rs:69-82), with the same five affinities and the `nullable` flag,
  and the seeding.
- `rows.dfy` (module `Rows`): the value-kind mapping of `__getitem__`.

Modelling choices:

- A Rust `&str` is always well-formed UTF-8. The text members therefore
  require `Utf8.Valid(buf)`.
- The Python subclass test is a function parameter `isSubclass`.
- The scan walks a DashMap, whose iteration order is unspecified, so `order`
  is a parameter. It must list exactly the table's keys, and every lemma holds
  for any such order.
- `add_type_explicit` overwrites an existing entry unconditionally
  (src/lib.rs:41), and the model does the same.
- The `as u8`, `as u16` and `as u32` casts are written out as `% 0x100`,
  `% 0x10000` and `% 0x1_0000_0000`. The proofs show that the branch
  selecting each cast never needs the reduction.
- The `EMPTY_UNICODE` singleton is passed in as a parameter. It is created
  once as `PyUnicode_New(0, 255)` (src/typeref.rs:73), so the text members
  require it to be a valid object of length 0.

## Model

| member | source | states |
|---|---|---|
| `Utf8.DecodeChar` | src/str.rs:79 | each character `chars()` yields is a Unicode scalar value; its byte length fixes its range (1: below 0x80, 2: below 0x800, 3: below 0x10000, 4: at least 0x10000) |
| `Utf8.Decode` | src/str.rs:79 | the code points of a well-formed string are scalar values and are no more numerous than its bytes |
| `Utf8.AsciiValid` | src/str.rs:141-143 | a string of ASCII bytes is well-formed UTF-8 and its code points are its bytes |
| `Utf8.DecodeConcat` | src/str.rs:79 | `chars()` over two well-formed strings joined together yields the first string's code points, then the second's |
| `Utf8.EncodeChar` | src/str.rs:79 | encoding a scalar value gives one well-formed character that decodes back to it |
| `Utf8.EncodeDecodeChar` | src/str.rs:79 | decoding a well-formed character and encoding it again gives back the same bytes |
| `Utf8.EncodeDecode` | src/str.rs:137-147 | every well-formed string is the encoding of its code points, so the text read back re-encodes to the input bytes |
| `Utf8.DecodeEncode` | src/str.rs:137-147 | encoding any scalar values gives well-formed UTF-8 that decodes back to them |
| `Utf8.NumChars` | src/str.rs:141 | `bytecount::num_chars` (count of bytes whose `i8` value is at least -0x40) never exceeds the byte length |
| `Utf8.NumCharsCountsLeads` | src/str.rs:141 | that count takes exactly the bytes that are not continuation bytes |
| `Utf8.NumCharsOfChar` | src/str.rs:141 | one well-formed character is counted exactly once |
| `Utf8.NumCharsDecode` | src/str.rs:141-145 | on well-formed UTF-8, `num_chars` equals the number of code points, so each writer's buffer holds exactly one unit per character |
| `Utf8.AnyAbove` | src/str.rs:126-128 | `iter().find(\|v\| **v > t).is_some()` holds exactly when some byte exceeds `t` |
| `Utf8.MaxOf` | src/str.rs:126-131 | the largest code point bounds every code point and is one of them |
| `Utf8.CharThreshold` | src/str.rs:126-131 | within one character, a byte above 0x7F, 0xC3 or 0xEF occurs exactly when the code point is at least 0x80, 0x100 or 0x10000 |
| `Utf8.ThresholdIff` | src/str.rs:126-131 | in a well-formed string, some byte is above 239 iff some code point is above U+FFFF; some byte is above 195 iff some code point is U+0100 or more |
| `Utf8.AsciiIff` | src/str.rs:142 | byte length equals code-point count exactly when every code point is below 0x80 |
| `Utf8.AsciiDecodeIsIdentity` | src/str.rs:142-143 | when every code point is ASCII, the code points are the bytes themselves, so copying bytes verbatim is correct |
| `Unicode.KindFor` | src/str.rs:122-131 | the selected kind's maximum character covers the largest code point, and no kind with a smaller maximum does |
| `Unicode.UnicodeObject.New` | src/str.rs:65 | `PyUnicode_New(size, maxchar)` gives a fresh buffer of `size` units plus the terminator, tagged with `maxchar` |
| `Unicode.PyUnicodeAscii` | src/str.rs:63-71 | the ASCII writer passes 127, copies the first `num_chars` bytes verbatim and writes 0 at index `num_chars` |
| `Unicode.NarrowLossless` | src/str.rs:79-81 | a narrowing cast loses nothing when every code point is below the width |
| `Unicode.NextChar` | src/str.rs:79 | one step of `chars()` at a character boundary yields the next code point and resumes right after that character's bytes, still at a boundary |
| `Unicode.WriteChars` | src/str.rs:79-83 | the writer loop stores, in order, each decoded code point reduced to the unit width at the advancing pointer, then a single 0 right after the last unit |
| `Unicode.PyUnicodeOneByte` | src/str.rs:75-86 | the one-byte writer passes 255 and fills `num_chars` units equal to the code points `as u8`, then 0 |
| `Unicode.PyUnicodeTwoByte` | src/str.rs:89-100 | the two-byte writer passes 65535 and fills `num_chars` units equal to the code points `as u16`, then 0 |
| `Unicode.PyUnicodeFourByte` | src/str.rs:103-114 | the four-byte writer passes 1114111 and fills `num_chars` units equal to the code points `as u32`, then 0 |
| `Unicode.EarlyCheckAgrees` | src/str.rs:122-127 | the first-byte shortcut fires only when the full scan would also choose four bytes, so it never changes the width |
| `Unicode.StrImplKindScalar` | src/str.rs:117-134 | for non-empty UTF-8, the writer chosen by the byte thresholds is the one the largest code point calls for (four bytes above U+FFFF, two above U+00FF, else one); its units equal the code points, so no cast loses anything |
| `Unicode.UnicodeFromStr` | src/str.rs:137-147 | for every input the result is a valid object whose units are the input's code points in order and re-encode to the input; empty input returns the shared empty singleton itself; any other input gives a fresh NUL-terminated object of the narrowest kind for its largest code point |
| `Unicode.AsciiExample` | src/str.rs:141-143 | "hello" decodes to its own bytes and is stored as ASCII |
| `Unicode.OneByteExample` | src/str.rs:128-131 | "café" (U+00E9) is stored one byte per character |
| `Unicode.TwoByteExample` | src/str.rs:128-129 | "中文" (U+4E2D U+6587) is stored two bytes per character |
| `Unicode.FourByteExample` | src/str.rs:122-127 | "😀" (U+1F600) is stored four bytes per character |
| `TypeLut.IndexStep` | src/lib.rs:44-62 | one `get_or_index` keeps every entry, adds at most the queried type and only with the answer's value, answers a value exactly when the type is registered afterwards, that value is the type's own or a registered supertype's, and `Err` exactly when the type is unknown and has no registered supertype |
| `TypeLut.FirstSupertype` | src/lib.rs:52-59 | the scan finds the first key in iteration order that the type is a subclass of, or reports that no key is |
| `TypeLut.PyTypeLut.constructor` | src/lib.rs:34-38 | a new table is empty |
| `TypeLut.PyTypeLut.AddTypeExplicit` | src/lib.rs:40-42 | the entry for the type is inserted or overwritten and nothing else changes |
| `TypeLut.PyTypeLut.GetOrIndex` | src/lib.rs:44-62 | the answer and the new table are those of `IndexStep`: exact hit, else the first supertype's value cached under the type, else `Err` |
| `TypeLut.LookupAfterRegister` | src/lib.rs:40-47 | after `add_type_explicit(t, v)`, `get_or_index(t)` returns `Ok(v)` and leaves the table unchanged |
| `TypeLut.RegisterIdempotent` | src/lib.rs:279-293 | registering the same entry twice equals registering it once |
| `TypeLut.ExactHit` | src/lib.rs:45-47 | an exact hit returns the stored value and leaves the table unchanged |
| `TypeLut.MissOutcome` | src/lib.rs:52-61 | on a miss, `Ok(v)` means some registered supertype maps to `v` and the table gains only that type, mapped to `v`; `Err` happens exactly when no registered key is a supertype, and the table is unchanged |
| `TypeLut.IndexOnlyGrows` | src/lib.rs:44-62 | `get_or_index` never removes or changes an entry; the key set grows by at most the queried type |
| `TypeLut.Memoized` | src/lib.rs:45-57 | after a successful lookup, the next lookup of the same type is an exact hit with the same answer, for any iteration order |
| `TypeLut.DerivedSurvivesRootUpdate` | src/lib.rs:49-57 | re-registering a root with a new value does not change the value cached for a type derived from it |
| `TypeLut.UniqueSupertypeDecides` | src/lib.rs:52-58 | when exactly one registered key is a supertype, the answer is its value in every iteration order |
| `TypeLut.FirstInOrderWins` | src/lib.rs:52-58 | when several keys are supertypes, the first one in iteration order decides the answer |
| `SqlTypes.SeedTypeLut` | src/lib.rs:277-308 | after init the table holds exactly `int` mapped to non-nullable Integer, and `dict` and `bytes` mapped to non-nullable Blob; the duplicate `int` insert changes nothing |
| `SqlTypes.SeededLookups` | src/lib.rs:277-308 | on the seeded table, `int`, `dict` and `bytes` are exact hits with those types |
| `SqlTypes.IntSubclassIsInteger` | src/lib.rs:277-308 | on the seeded table, a subclass of `int` only (such as `bool`) is classified as non-nullable Integer in any order and cached |
| `Rows.GetItem` | src/lib.rs:125-162 | a missing column and an unknown value kind are errors and nothing else is; null maps to `None`; bool, integers of every width, floats and blobs keep their value; every text value, empty or not, becomes a valid string object whose units are its code points, the empty singleton for empty text and otherwise of the narrowest kind |

## Left out

- `SqlxStreamRequest` (src/lib.rs:165-215) is not modelled. It is an async stream behind a futures mutex, and it extends the borrow of its pinned query string through a raw pointer. Note that `next` turns both end-of-stream and a driver error into `None` (src/lib.rs:210).
- `SqlxDb::new` and `start_query` (src/lib.rs:219-237) are not modelled. They parse a connection string and create a pool, which is I/O done by sqlx.
- `register_model` (src/lib.rs:239-268) is not modelled. After reading the model's `__annotations__` it reaches `todo!()` on the first field, and on a model without fields it reaches the final `todo!()`.
- `try_get_root_sql_type` (src/lib.rs:90-105) is not modelled. Nothing calls it. It imports `types` and `typing` and reads the annotation's `__class__`; for a union annotation it panics with `todo!()` (src/lib.rs:98-100), and for anything else it returns an error (src/lib.rs:104).
- `src/typeref.rs` is not modelled. It only sets global FFI pointers once. The `EMPTY_UNICODE` and `NONE` singletons it provides are a parameter and a datatype value.
- The `OnceLock::get_or_init` around the table is not modelled: `SeedTypeLut` models the first initialisation only.
- DashMap's thread safety and the `unsafe impl Send/Sync` are not modelled. The table is sequential, so a concurrent insert between the exact-hit check and the scan is not captured.
- The FFI object layout is not modelled: the header offsets of `PyASCIIObject` and `PyCompactUnicodeObject`, `Py_INCREF` in `use_immortal!`, and `PyBytes_FromStringAndSize`. A string object is a buffer of the requested length, tagged with its maximum character. A bytes object is its byte sequence.
- Floating point is not modelled. `Real` and `Double` carry a `real`, and the `f32` to `f64` widening is taken to keep the value. NaN and infinities are not represented.
- Rows.GetItem: the `todo!()` panics for an unknown value kind and for a failed column lookup are modelled as `Failure` results, not as aborts. The `unwrap` on `key.to_str()` is not modelled.
- TypeLut.PyTypeLut.GetOrIndex: the `unwrap` on `is_subclass` is not modelled. The subclass test is a total function. The discovery path inserts into the DashMap (src/lib.rs:55-56) while the iterator started at src/lib.rs:52 still holds a read guard on the current shard; if the new key hashes to that shard, the insert can deadlock. The model assumes the insert returns.
- The `num_chars as isize` casts are not modelled: lengths are unbounded naturals.
- `test.py` has no logic of its own.
