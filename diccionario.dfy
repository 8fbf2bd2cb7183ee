/** The fixed-capacity dictionary `Diccionario<K, V>`: direct addressing over
    256 slots ("baldes") by the key's hash code, with a reject-on-collision
    policy. Java's `null` key is `None` of an `Option<K>` argument; the two
    exceptions it throws are the `Err` side of a `Result`. A key's `equals`
    is Dafny's `==` on `K`, and its `hashCode()` is the function `hash`
    given at construction, so equal keys always have equal hash codes. */
module Diccionarios {
  import opened JavaMath

  /** Number of slots, fixed for the dictionary's whole life. */
  const NUM_BUCKETS := 256

  datatype Option<T> = None | Some(value: T)

  datatype Result<T, E> = Ok(value: T) | Err(error: E)

  /** `LlaveNulaException`, and `ColisionException` with the data its message
      carries: the rejected key, the slot and the key already in the slot. */
  datatype DictError<K> = LlaveNula | Colision(rechazada: K, indice: int, ocupante: K)

  /** One stored association; key and value are final. */
  datatype Balde<K, V> = Balde(llave: K, valor: V)

  type Slots<K, V> = seq<Option<Balde<K, V>>>

  /** The slot a hash code is sent to, `Math.floorMod(hash, NUM_BUCKETS)`:
      always in range, negative hash codes included. */
  function Posicion(h: Int32): (i: int)
    ensures 0 <= i < NUM_BUCKETS
  {
    FloorMod(h as int, NUM_BUCKETS)
  }

  /** The slot is the hash code's Euclidean remainder, so hash codes that
      differ by a multiple of the number of slots share a slot. */
  lemma PosicionEsResto(h: Int32)
    ensures Posicion(h) == (h as int) % NUM_BUCKETS
  {
    FloorModIsEuclidean(h as int, NUM_BUCKETS);
  }

  /** The number of non-empty slots, counted from the front as `size()` does. */
  function Ocupados<K, V>(s: Slots<K, V>): (n: nat)
    ensures n <= |s|
    ensures n == 0 <==> forall i :: 0 <= i < |s| ==> s[i].None?
  {
    if s == [] then 0 else Ocupados(s[..|s| - 1]) + (if s[|s| - 1].Some? then 1 else 0)
  }

  /** Writing one slot changes the count by what left and what entered it. */
  lemma {:induction false} OcupadosUpdate<K, V>(s: Slots<K, V>, i: int, x: Option<Balde<K, V>>)
    requires 0 <= i < |s|
    ensures Ocupados(s[i := x]) ==
            Ocupados(s) - (if s[i].Some? then 1 else 0) + (if x.Some? then 1 else 0)
  {
    var t := s[i := x];
    if i == |s| - 1 {
      assert t[..|t| - 1] == s[..|s| - 1];
    } else {
      assert t[..|t| - 1] == s[..|s| - 1][i := x];
      OcupadosUpdate(s[..|s| - 1], i, x);
    }
  }

  /** Every entry sits in the slot its key's hash code selects. */
  ghost predicate EnSuPosicion<K, V>(s: Slots<K, V>, hash: K -> Int32) {
    forall i :: 0 <= i < |s| && s[i].Some? ==> Posicion(hash(s[i].value.llave)) == i
  }

  /** The keys stored in the slots, collected from the front. */
  ghost function LlavesDe<K, V>(s: Slots<K, V>): set<K> {
    if s == [] then {}
    else LlavesDe(s[..|s| - 1]) + (if s[|s| - 1].Some? then {s[|s| - 1].value.llave} else {})
  }

  /** A key is among the stored ones exactly when the slot its hash selects
      lies in the slots and holds an entry with that key. */
  lemma {:induction false} EnLlavesDe<K, V>(s: Slots<K, V>, hash: K -> Int32, k: K)
    requires EnSuPosicion(s, hash)
    ensures k in LlavesDe(s) <==>
            Posicion(hash(k)) < |s| && s[Posicion(hash(k))].Some? && s[Posicion(hash(k))].value.llave == k
  {
    if s != [] {
      var t := s[..|s| - 1];
      assert EnSuPosicion(t, hash);
      EnLlavesDe(t, hash, k);
    }
  }

  /** The association the slots represent. A key is stored at most once
      because its slot is fixed by its hash code. */
  ghost function ModeloDe<K, V>(s: Slots<K, V>, hash: K -> Int32): map<K, V>
    requires EnSuPosicion(s, hash)
  {
    map k | k in LlavesDe(s) :: EnLlavesDe(s, hash, k); s[Posicion(hash(k))].value.valor
  }

  /** The model holds a key exactly when the key's slot holds an entry with
      that key, and then maps it to that entry's value. */
  lemma EnModeloDe<K, V>(s: Slots<K, V>, hash: K -> Int32, k: K)
    requires EnSuPosicion(s, hash)
    ensures k in ModeloDe(s, hash) <==>
            Posicion(hash(k)) < |s| && s[Posicion(hash(k))].Some? && s[Posicion(hash(k))].value.llave == k
    ensures k in ModeloDe(s, hash) ==> ModeloDe(s, hash)[k] == s[Posicion(hash(k))].value.valor
  {
    EnLlavesDe(s, hash, k);
  }

  /** Each slot owns one key, so the number of stored keys is the number of
      occupied slots. */
  lemma {:induction false} LlavesCuentaOcupados<K, V>(s: Slots<K, V>, hash: K -> Int32)
    requires EnSuPosicion(s, hash)
    ensures |LlavesDe(s)| == Ocupados(s)
  {
    if s != [] {
      var n := |s| - 1;
      var t := s[..n];
      assert EnSuPosicion(t, hash);
      LlavesCuentaOcupados(t, hash);
      if s[n].Some? {
        EnLlavesDe(t, hash, s[n].value.llave);
      }
    }
  }

  /** Map extensionality, stated over the two maps' own membership so that
      the solver uses the facts `ModeloAlLlenar` and `ModeloAlVaciar` gather. */
  lemma MapasIguales<K, V>(a: map<K, V>, b: map<K, V>)
    requires forall k :: k in a <==> k in b
    requires forall k :: k in a ==> a[k] == b[k]
    ensures a == b
  {
  }

  /** No entry, no association. */
  lemma ModeloVacio<K, V>(s: Slots<K, V>, hash: K -> Int32)
    requires forall i :: 0 <= i < |s| ==> s[i].None?
    ensures EnSuPosicion(s, hash) && ModeloDe(s, hash) == map[]
  {
    forall k | k in ModeloDe(s, hash) ensures false {
      EnModeloDe(s, hash, k);
    }
  }

  /** Filling an empty slot with an entry for a key of that slot adds the key,
      absent before, with its value, and keeps every other association. */
  lemma ModeloAlLlenar<K, V>(s: Slots<K, V>, hash: K -> Int32, b: Balde<K, V>)
    requires EnSuPosicion(s, hash)
    requires Posicion(hash(b.llave)) < |s| && s[Posicion(hash(b.llave))].None?
    ensures EnSuPosicion(s[Posicion(hash(b.llave)) := Some(b)], hash)
    ensures b.llave !in ModeloDe(s, hash)
    ensures ModeloDe(s[Posicion(hash(b.llave)) := Some(b)], hash) == ModeloDe(s, hash)[b.llave := b.valor]
  {
    var t := s[Posicion(hash(b.llave)) := Some(b)];
    assert EnSuPosicion(t, hash);
    var m, m' := ModeloDe(s, hash), ModeloDe(t, hash);
    var esperado := m[b.llave := b.valor];
    forall k ensures k in m' <==> k in esperado {
      EnModeloDe(s, hash, k);
      EnModeloDe(t, hash, k);
    }
    forall k | k in m' ensures k in esperado && m'[k] == esperado[k] {
      EnModeloDe(s, hash, k);
      EnModeloDe(t, hash, k);
    }
    MapasIguales(m', esperado);
    EnModeloDe(s, hash, b.llave);
  }

  /** Emptying an occupied slot removes exactly the key stored there. */
  lemma ModeloAlVaciar<K, V>(s: Slots<K, V>, hash: K -> Int32, i: int)
    requires EnSuPosicion(s, hash)
    requires 0 <= i < |s| && s[i].Some?
    ensures EnSuPosicion(s[i := None], hash)
    ensures ModeloDe(s[i := None], hash) == ModeloDe(s, hash) - {s[i].value.llave}
  {
    var t := s[i := None];
    assert EnSuPosicion(t, hash);
    var m, m' := ModeloDe(s, hash), ModeloDe(t, hash);
    var esperado := m - {s[i].value.llave};
    forall k ensures k in m' <==> k in esperado {
      EnModeloDe(s, hash, k);
      EnModeloDe(t, hash, k);
    }
    forall k | k in m' ensures k in esperado && m'[k] == esperado[k] {
      EnModeloDe(s, hash, k);
      EnModeloDe(t, hash, k);
    }
    MapasIguales(m', esperado);
  }

  class Diccionario<K(==), V> {
    /** The keys' `hashCode()`. */
    const hash: K -> Int32
    /** The slots; `None` is an empty slot (Java's `null`). */
    const buckets: array<Option<Balde<K, V>>>

    /** The table has its fixed size and every entry sits in its key's slot. */
    ghost predicate Valid()
      reads buckets
    {
      buckets.Length == NUM_BUCKETS && EnSuPosicion(buckets[..], hash)
    }

    /** The key/value association the table holds. */
    ghost function Model(): map<K, V>
      reads buckets
      requires Valid()
    {
      ModeloDe(buckets[..], hash)
    }

    /** A new, empty dictionary with all its slots empty. */
    constructor (hash: K -> Int32)
      ensures Valid() && fresh(buckets) && this.hash == hash
      ensures forall i :: 0 <= i < buckets.Length ==> buckets[i].None?
      ensures Ocupados(buckets[..]) == 0 && Model() == map[]
    {
      this.hash := hash;
      buckets := new Option<Balde<K, V>>[NUM_BUCKETS](_ => None);
      new;
      ModeloVacio(buckets[..], hash);
    }

    /** A key is in the model exactly when the slot its hash selects holds an
        entry whose key is equal to it; the value is that entry's. */
    lemma EnModelo(k: K)
      requires Valid()
      ensures k in Model() <==>
              buckets[Posicion(hash(k))].Some? && buckets[Posicion(hash(k))].value.llave == k
      ensures k in Model() ==> Model()[k] == buckets[Posicion(hash(k))].value.valor
    {
      EnModeloDe(buckets[..], hash, k);
    }

    /** `obtienePosicion`: the slot of a non-null key, in `[0, NUM_BUCKETS)`
        whatever the sign of its hash code; a null key is rejected. */
    function ObtienePosicion(key: Option<K>): (r: Result<int, DictError<K>>)
      ensures key.None? <==> r == Err(LlaveNula)
      ensures key.Some? ==> r.Ok?
      ensures r.Ok? ==> 0 <= r.value < NUM_BUCKETS
      ensures r.Ok? ==> r.value == (hash(key.value) as int) % NUM_BUCKETS
    {
      match key
      case None => Err(LlaveNula)
      case Some(k) => PosicionEsResto(hash(k)); Ok(Posicion(hash(k)))
    }

    /** `put`: stores the pair only in an empty slot. An occupied slot, even one
        holding the same key, is a collision and nothing changes. */
    method Put(key: Option<K>, value: V) returns (r: Result<bool, DictError<K>>)
      requires Valid()
      modifies buckets
      ensures Valid()
      ensures key.None? ==> r == Err(LlaveNula) && buckets[..] == old(buckets[..]) && Model() == old(Model())
      ensures key.Some? && old(buckets[Posicion(hash(key.value))]).None? ==>
                && r == Ok(true)
                && buckets[..] == old(buckets[..])[Posicion(hash(key.value)) := Some(Balde(key.value, value))]
                && key.value !in old(Model())
                && Model() == old(Model())[key.value := value]
                && Ocupados(buckets[..]) == old(Ocupados(buckets[..])) + 1
      ensures key.Some? && old(buckets[Posicion(hash(key.value))]).Some? ==>
                && r == Err(Colision(key.value, Posicion(hash(key.value)),
                                     old(buckets[Posicion(hash(key.value))]).value.llave))
                && buckets[..] == old(buckets[..])
                && Model() == old(Model())
      ensures key.Some? && key.value in old(Model()) ==> r.Err?
    {
      var index := ObtienePosicion(key);
      if index.Err? {
        return Err(index.error);
      }
      var k := key.value;
      var i := index.value;
      EnModelo(k);
      if buckets[i].None? {
        ghost var before := buckets[..];
        buckets[i] := Some(Balde(k, value));
        assert buckets[..] == before[i := Some(Balde(k, value))];
        OcupadosUpdate(before, i, Some(Balde(k, value)));
        ModeloAlLlenar(before, hash, Balde(k, value));
        r := Ok(true);
      } else {
        r := Err(Colision(k, i, buckets[i].value.llave));
      }
    }

    /** `get`: the value stored under an equal key in the key's slot, or
        `None` when the slot is empty or held by a different key. */
    function Get(key: Option<K>): (r: Result<Option<V>, DictError<K>>)
      reads buckets
      requires Valid()
      ensures key.None? ==> r == Err(LlaveNula)
      ensures key.Some? ==> r.Ok? && (r.value.Some? <==> key.value in Model())
      ensures key.Some? && key.value in Model() ==> r == Ok(Some(Model()[key.value]))
    {
      match key
      case None => Err(LlaveNula)
      case Some(k) =>
        var entry := buckets[Posicion(hash(k))];
        EnModelo(k);
        if entry.Some? && entry.value.llave == k then Ok(Some(entry.value.valor)) else Ok(None)
    }

    /** `remove`: clears the key's slot only when it holds an entry with an
        equal key; a slot owned by another key is left alone. */
    method Remove(key: Option<K>) returns (r: Result<bool, DictError<K>>)
      requires Valid()
      modifies buckets
      ensures Valid()
      ensures key.None? ==> r == Err(LlaveNula) && buckets[..] == old(buckets[..]) && Model() == old(Model())
      ensures key.Some? ==> r == Ok(key.value in old(Model()))
      ensures key.Some? ==> Model() == old(Model()) - {key.value}
      ensures key.Some? && key.value in old(Model()) ==>
                && buckets[..] == old(buckets[..])[Posicion(hash(key.value)) := None]
                && Ocupados(buckets[..]) == old(Ocupados(buckets[..])) - 1
      ensures key.Some? && key.value !in old(Model()) ==> buckets[..] == old(buckets[..])
    {
      var index := ObtienePosicion(key);
      if index.Err? {
        return Err(index.error);
      }
      var k := key.value;
      var i := index.value;
      EnModelo(k);
      var entry := buckets[i];
      if entry.Some? && entry.value.llave == k {
        ghost var before := buckets[..];
        buckets[i] := None;
        assert buckets[..] == before[i := None];
        OcupadosUpdate(before, i, None);
        ModeloAlVaciar(before, hash, i);
        r := Ok(true);
      } else {
        r := Ok(false);
      }
    }

    /** `containsKey`: the lookup condition of `get`, as a boolean. */
    function ContainsKey(key: Option<K>): (r: Result<bool, DictError<K>>)
      reads buckets
      requires Valid()
      ensures key.None? ==> r == Err(LlaveNula)
      ensures key.Some? ==> r == Ok(key.value in Model())
    {
      match key
      case None => Err(LlaveNula)
      case Some(k) =>
        var entry := buckets[Posicion(hash(k))];
        EnModelo(k);
        Ok(entry.Some? && entry.value.llave == k)
    }

    /** `size`: scans every slot and counts the non-empty ones; that is the
        number of keys the dictionary holds. */
    method Size() returns (n: int)
      requires Valid()
      ensures n == Ocupados(buckets[..])
      ensures 0 <= n <= NUM_BUCKETS
    {
      n := 0;
      var i := 0;
      while i < buckets.Length
        invariant 0 <= i <= buckets.Length
        invariant n == Ocupados(buckets[..i])
      {
        if buckets[i].Some? {
          n := n + 1;
        }
        assert buckets[..i + 1][..i] == buckets[..i];
        i := i + 1;
      }
      assert buckets[..i] == buckets[..];
    }

    /** The number of occupied slots is the number of keys the dictionary holds. */
    lemma OcupadosEsNumeroDeLlaves()
      requires Valid()
      ensures Ocupados(buckets[..]) == |Model()|
    {
      LlavesCuentaOcupados(buckets[..], hash);
      assert Model().Keys == LlavesDe(buckets[..]);
    }

    /** `isEmpty`: `size() == 0`, which holds exactly when no slot and no key is in use. */
    method IsEmpty() returns (e: bool)
      requires Valid()
      ensures e <==> Model() == map[]
      ensures e <==> forall i :: 0 <= i < buckets.Length ==> buckets[i].None?
    {
      var n := Size();
      e := n == 0;
      OcupadosEsNumeroDeLlaves();
      if !e {
        assert |Model()| != 0;
      }
    }
  }
}
