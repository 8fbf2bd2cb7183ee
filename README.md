# Diccionario: a fixed-capacity hash dictionary with reject-on-collision

This project models the dictionary `Diccionario<K, V>` of the `ar.unrn.diccionario`
package and proves its contract. The dictionary maps keys to values by direct
addressing over `NUM_BUCKETS = 256` slots ("baldes"). The slot of a key is
`Math.floorMod(key.hashCode(), 256)`. A `put` into an occupied slot is rejected
with `ColisionException`, even when the slot holds an equal key; `get`, `remove`
and `containsKey` only report a hit when the entry in the key's slot has an
equal key. A `null` key makes every operation throw `LlaveNulaException`.

How the Java is rendered:

- `JavaMath` (`java_math.dfy`): Java's 32-bit `int` (`Int32`), Java's
  truncating `%` (`TruncRem`) and `Math.floorMod` (`FloorMod`), written out as
  the JDK computes them. `TruncRemOfNegativeHash` shows why the index needs
  `floorMod`: truncating `%` sends every negative hash code that is not a
  multiple of 256 below slot 0. `FloorModIsEuclidean` proves that, for the positive
  divisor used here, `floorMod` is Dafny's Euclidean `%`.
- `Diccionarios` (`diccionario.dfy`): the class `Diccionario` owns a `const
  buckets: array<Option<Balde<K, V>>>` of length 256, as the Java object owns
  its `final Balde<K, V>[] buckets`. `put` and `remove` are methods that
  overwrite one array element in place; `get` and `containsKey` only read, and
  are functions with `reads buckets`; `obtienePosicion` reads no state at all
  (only the key and its hash), and is a function without a `reads` clause; `size`
  keeps the Java loop over the array and is a method; `isEmpty` calls it.
  - A key's `hashCode()` is the function `hash: K -> Int32` given to the
    constructor. A key's `equals` is Dafny's `==` on `K`. Equal keys therefore
    always have equal hash codes, which is the consistency the class comment
    asks of keys.
  - A `null` key is `None` of an `Option<K>` argument. The two exceptions are
    the `Err` side of a `Result`: `LlaveNula`, and `Colision(rechazada, indice,
    ocupante)` with the rejected key, the slot and the occupying key that the
    Java message reports.
  - `Valid()` says the array has 256 slots and every entry sits in the slot of
    its own key. `Model()` is the key/value map the table represents.
    `Ocupados(s)` is the number of non-empty slots, the reference definition
    `size()` is proved against.
- `Escenarios` (`escenarios.dfy`): the JUnit tests of `DiccionarioTest`,
  replayed as verified methods. Integer keys hash to their own value, as
  `Integer.hashCode()` does. String keys keep an abstract hash; each test that
  needs two strings to collide, or not to collide, takes that as a
  precondition instead of computing `String.hashCode()`. The long tests are
  split into phases, each with its own contract. `LlavesConHashForzado`
  gives every name the same forced hash code, one way of using the
  per-instance forced hash of `LlaveDefectuosa`, to show that lookups compare
  keys and not only slots. `HashNegativoVaAlUltimoBalde`
  shows that hash code −1 lands in slot 255.

The test `put_LanzaColisionException` (DiccionarioTest.java:86-106) says it
inserts "another key" into the occupied slot, but its code re-inserts the same
key `CLAVE_COLISION_1`. The scenario `ClavesQueColisionan` does what the code
does. The two keys the tests call colliding do not share a slot under
`String.hashCode()` as Java documents it (s[0]·31^(n−1) + … + s[n−1], wrapping
at 32 bits): `"clave_colision_1"` has hash code 85313224, slot 200, and
`"otra_clave_muy_diferente_para_colision"` has −1574655531, slot 213. So the
tests that look up, remove or probe the second key (DiccionarioTest.java:151-157,
193-201, 232-238) only ever meet an empty slot. The scenario makes no assumption
about the two slots, and its assertions about the second key hold either way.

## Model

| member | source | states |
|---|---|---|
| `JavaMath.TruncRem` | src/main/java/ar/unrn/diccionario/Diccionario.java:84-90 | Java's `%` stays strictly between −y and y, takes the sign of the dividend and differs from it by a multiple of y, which pins down its value |
| `JavaMath.FloorMod` | src/main/java/ar/unrn/diccionario/Diccionario.java:86-91 | `Math.floorMod` with a positive divisor always lies in `[0, y)`, whatever the dividend's sign |
| `JavaMath.ModUnique` | src/main/java/ar/unrn/diccionario/Diccionario.java:86-88 | the remainder in `[0, y)` that differs from `x` by a multiple of `y` is unique |
| `JavaMath.FloorModIsEuclidean` | src/main/java/ar/unrn/diccionario/Diccionario.java:86-91 | for a positive divisor `floorMod` equals the Euclidean remainder, for negative dividends too |
| `JavaMath.TruncRemOfNegativeHash` | src/main/java/ar/unrn/diccionario/Diccionario.java:84-91 | for every negative hash code that is not a multiple of 256, truncating `%` gives a negative index, out of the table, while `floorMod` gives that index plus 256 |
| `Diccionarios.Posicion` | src/main/java/ar/unrn/diccionario/Diccionario.java:91 | the slot of any 32-bit hash code, negative ones included, lies in `[0, 256)` |
| `Diccionarios.PosicionEsResto` | src/main/java/ar/unrn/diccionario/Diccionario.java:86-91 | the slot is the hash code modulo 256, so hash codes 256 apart share a slot (300 and 556 both go to 44) |
| `Diccionarios.Ocupados` | src/main/java/ar/unrn/diccionario/Diccionario.java:215-224 | the number of non-empty slots is at most the number of slots, and is 0 exactly when every slot is empty |
| `Diccionarios.OcupadosUpdate` | src/main/java/ar/unrn/diccionario/Diccionario.java:117-119 | writing one slot changes the count by one when it fills an empty slot or empties a full one, and not otherwise |
| `Diccionarios.EnLlavesDe` | src/main/java/ar/unrn/diccionario/Diccionario.java:155 | when every entry sits in its key's slot, a key is stored exactly when its own slot holds an entry with an equal key |
| `Diccionarios.EnModeloDe` | src/main/java/ar/unrn/diccionario/Diccionario.java:153-161 | the map the slots represent holds a key exactly when the key's slot holds an entry with an equal key, and maps it to that entry's value |
| `Diccionarios.LlavesCuentaOcupados` | src/main/java/ar/unrn/diccionario/Diccionario.java:215-224 | each occupied slot holds a distinct key, so the number of stored keys is the number of occupied slots |
| `Diccionarios.ModeloVacio` | src/main/java/ar/unrn/diccionario/Diccionario.java:59-61 | all-empty slots are well placed and represent the empty map |
| `Diccionarios.ModeloAlLlenar` | src/main/java/ar/unrn/diccionario/Diccionario.java:117-119 | storing an entry in its key's empty slot keeps every entry in its slot, adds the key, which was absent, with its value, and keeps every other association |
| `Diccionarios.ModeloAlVaciar` | src/main/java/ar/unrn/diccionario/Diccionario.java:188-190 | clearing an occupied slot removes exactly the key stored there from the map |
| `Diccionarios.Diccionario.constructor` | src/main/java/ar/unrn/diccionario/Diccionario.java:59-61 | a new dictionary has 256 empty slots, no occupied slot and the empty map |
| `Diccionarios.Diccionario.EnModelo` | src/main/java/ar/unrn/diccionario/Diccionario.java:153-161 | a key is in the dictionary exactly when the slot `obtienePosicion` gives holds an entry whose key equals it, and its value is that entry's |
| `Diccionarios.Diccionario.ObtienePosicion` | src/main/java/ar/unrn/diccionario/Diccionario.java:80-92 | a null key fails with `LlaveNula`, and only a null key; every other key gets an index, which lies in `[0, 256)` and is the hash code modulo 256 |
| `Diccionarios.Diccionario.Put` | src/main/java/ar/unrn/diccionario/Diccionario.java:114-126 | null key: `LlaveNula`, nothing changes. Empty slot: returns true, stores `(key, value)` there and nowhere else, the key was absent and the map gains exactly `key := value`, one more slot is occupied. Occupied slot: `Colision(key, index, occupying key)` and the array and map are unchanged. A key already present is always rejected |
| `Diccionarios.Diccionario.Get` | src/main/java/ar/unrn/diccionario/Diccionario.java:150-165 | null key: `LlaveNula`; otherwise the value stored under the key, and absent exactly when the key is not in the dictionary, which covers a slot held by a different key; reads only |
| `Diccionarios.Diccionario.Remove` | src/main/java/ar/unrn/diccionario/Diccionario.java:183-195 | null key: `LlaveNula`, nothing changes; otherwise returns whether the key was present, the map loses exactly that key; when present only its slot is cleared and one slot fewer is occupied; when absent, even with its slot held by another key, the array is unchanged |
| `Diccionarios.Diccionario.ContainsKey` | src/main/java/ar/unrn/diccionario/Diccionario.java:208-212 | null key: `LlaveNula`; otherwise true exactly when the key is in the dictionary, the lookup condition of `get`; reads only |
| `Diccionarios.Diccionario.Size` | src/main/java/ar/unrn/diccionario/Diccionario.java:225-233 | the loop's count is the number of non-empty slots, between 0 and 256 |
| `Diccionarios.Diccionario.OcupadosEsNumeroDeLlaves` | src/main/java/ar/unrn/diccionario/Diccionario.java:215-224 | the number of non-empty slots equals the number of keys in the dictionary |
| `Diccionarios.Diccionario.IsEmpty` | src/main/java/ar/unrn/diccionario/Diccionario.java:242-244 | true exactly when the dictionary holds no key, and exactly when every slot is empty |
| `Escenarios.InsertaUnoDosTrescientos` | src/test/java/ar/unrn/diccionario/DiccionarioTest.java:39-45 | integer keys 1, 2 and 300 are accepted, `get` returns their values and the size is 3 |
| `Escenarios.InsertaTres` | src/test/java/ar/unrn/diccionario/DiccionarioTest.java:249-259 | three keys in distinct slots are accepted and the size goes 0, 1, 2, 3 |
| `Escenarios.RechazaRepetida` | src/test/java/ar/unrn/diccionario/DiccionarioTest.java:262-265 | re-inserting a stored key is rejected with a collision against itself in its own slot, and the size stays 3 |
| `Escenarios.RemueveLasTres` | src/test/java/ar/unrn/diccionario/DiccionarioTest.java:267-273 | removing the three keys lowers the size to 2, 1 and 0, and the dictionary is then empty |
| `Escenarios.SizeRetornaNumeroCorrectoYManejaColisiones` | src/test/java/ar/unrn/diccionario/DiccionarioTest.java:245-274 | the whole size test, given that "a", "b" and "clave_colision_1" lie in three distinct slots |
| `Escenarios.RemueveDosYColisionaEnCuarentaYCuatro` | src/test/java/ar/unrn/diccionario/DiccionarioTest.java:47-60 | after removing 2 the size is 2 and 2 is gone; 556 collides with 300 in slot 44, 300 keeps its value, 556 is absent and the size stays 2 |
| `Escenarios.MultiplesOperacionesConTiposDiferentes` | src/test/java/ar/unrn/diccionario/DiccionarioTest.java:36-61 | the whole integer-key test, its two halves in sequence |
| `Escenarios.NuevoDiccionarioEstaVacio` | src/test/java/ar/unrn/diccionario/DiccionarioTest.java:29-34 | a new dictionary is empty and has size 0 |
| `Escenarios.PutInsertaCorrectamente` | src/test/java/ar/unrn/diccionario/DiccionarioTest.java:67-74 | a put into an empty dictionary succeeds; size is 1, the dictionary is not empty and `get` returns the value |
| `Escenarios.PutMismaClaveEnBucketOcupadoLanzaColision` | src/test/java/ar/unrn/diccionario/DiccionarioTest.java:108-118 | a second put of the same key is a collision with itself in its slot; the first value stays and the size is 1 |
| `Escenarios.LlaveNulaEsRechazada` | src/test/java/ar/unrn/diccionario/DiccionarioTest.java:76-83 | `put` with a null key fails with `LlaveNula` and so, as in lines 142-149, 185-191 and 223-230, do `get`, `remove` and `containsKey`; the table and the stored value are untouched |
| `Escenarios.HashNegativoVaAlUltimoBalde` | src/main/java/ar/unrn/diccionario/Diccionario.java:84-91 | hash code −1 lands in slot 255, where the key 255 then collides with it |
| `Escenarios.LlavesConHashForzado` | src/main/java/ar/unrn/diccionario/LlaveDefectuosa.java:45-63 | with one forced hash code for every name, a second name is rejected, not found and not removable, and the first keeps its value |
| `Escenarios.ClavesQueColisionan` | src/test/java/ar/unrn/diccionario/DiccionarioTest.java:86-106 | putting the stored key again is a collision with itself; as in lines 151-157, 193-201 and 232-238, a second key never stored is not found by `get` or `containsKey` and `remove` of it returns false, whatever its slot, and the first key and the size 1 stay |

## Left out

- `toString` of the dictionary and of `Balde`, and the exact text of the two exception messages: debugging output with no format guarantee. The collision carries the rejected key, the slot and the occupying key instead of the message.
- `Balde.equals` and `Balde.hashCode`: no dictionary operation calls them.
- `DiccionarioApp`, `ColisionApp` and `ObjetoSimple`: console programs and a key generator built on a static counter and `Objects.hash`. `LlaveDefectuosa` is not modelled as a type. Its idea, a hash code forced apart from equality, is used in one scenario.
- `String.hashCode()`, `Integer.hashCode()` beyond "the value itself", and 32-bit overflow inside any hash computation: the hash is an abstract function into the 32-bit range.
- Keys whose `equals` and `hashCode` disagree, and keys mutated after insertion: the model uses Dafny's `==` and a fixed function, so it cannot express them. The class comment (Diccionario.java:21-24) requires consistent `equals` and `hashCode` and recommends immutable keys; `put`'s description of its key parameter (Diccionario.java:105-107) requires that a stored key's `hashCode` and `equals` do not change.
- Null values: Java's `get` returns `null` both for a missing key and for a key stored with a `null` value. The model returns `None` only for a missing key. A caller that stores null-able values instantiates `V` with an option type and then sees `Some(None)`.
- Thread safety: the class is not synchronized, and the model is sequential.
- Java's `size()` returns an `int`. The count never exceeds 256, so no overflow is modelled.
