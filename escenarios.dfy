/** The dictionary's unit-test scenarios, replayed on the model. Integer keys
    hash to their own value, as `Integer.hashCode()` does; string keys keep an
    abstract hash, and each scenario requires only the slot relations the
    test itself relies on. */
module Escenarios {
  import opened JavaMath
  import opened Diccionarios

  /** A fresh dictionary is empty and has size 0. */
  method NuevoDiccionarioEstaVacio(hash: string -> Int32) {
    var d := new Diccionario<string, int>(hash);
    var e := d.IsEmpty();
    assert e;
    var n := d.Size();
    assert n == 0;
  }

  /** Integer keys 1, 2 and 300 go to slots 1, 2 and 44; 556 also goes to
      slot 44 and is rejected, leaving 300 and the size untouched. */
  method MultiplesOperacionesConTiposDiferentes() {
    var d := InsertaUnoDosTrescientos();
    RemueveDosYColisionaEnCuarentaYCuatro(d);
  }

  /** First half of the integer-key test: three insertions into distinct slots. */
  method InsertaUnoDosTrescientos() returns (d: Diccionario<Int32, string>)
    ensures fresh(d.buckets) && d.Valid() && forall k :: d.hash(k) == k
    ensures Ocupados(d.buckets[..]) == 3
    ensures d.Get(Some(2)) == Ok(Some("dos")) && d.Get(Some(300)) == Ok(Some("trescientos"))
  {
    d := new Diccionario<Int32, string>(k => k);
    assert Posicion(1) == 1 && Posicion(2) == 2 && Posicion(300) == 44;
    var r := d.Put(Some(1), "uno");
    assert r == Ok(true);
    r := d.Put(Some(2), "dos");
    assert r == Ok(true);
    r := d.Put(Some(300), "trescientos");
    assert r == Ok(true);
    assert d.Get(Some(1)) == Ok(Some("uno"));
    assert d.Get(Some(300)) == Ok(Some("trescientos"));
    var n := d.Size();
    assert n == 3;
  }

  /** Second half: removing 2, then 556 collides with 300 in slot 44. */
  method RemueveDosYColisionaEnCuarentaYCuatro(d: Diccionario<Int32, string>)
    requires d.Valid() && forall k :: d.hash(k) == k
    requires Ocupados(d.buckets[..]) == 3
    requires d.Get(Some(2)) == Ok(Some("dos")) && d.Get(Some(300)) == Ok(Some("trescientos"))
    modifies d.buckets
  {
    var r := d.Remove(Some(2));
    assert r == Ok(true);
    var n := d.Size();
    assert n == 2;
    assert d.Get(Some(2)) == Ok(None);

    assert Posicion(556) == 44 && Posicion(300) == 44;
    d.EnModelo(300);
    r := d.Put(Some(556), "quinientos cincuenta y seis");
    assert r == Err(Colision(556, 44, 300));
    assert d.Get(Some(300)) == Ok(Some("trescientos"));
    assert d.Get(Some(556)) == Ok(None);
    n := d.Size();
    assert n == 2;
  }

  /** A hash code of -1 goes to the last slot, where the key 255 collides with it. */
  method HashNegativoVaAlUltimoBalde() {
    var d := new Diccionario<Int32, string>(k => k);
    assert Posicion(-1) == 255 && Posicion(255) == 255;
    var r := d.Put(Some(-1), "menos uno");
    assert r == Ok(true);
    assert d.Get(Some(-1)) == Ok(Some("menos uno"));
    r := d.Put(Some(255), "doscientos cincuenta y cinco");
    assert r == Err(Colision(255, 255, -1));
  }

  /** Every key-taking operation rejects a null key and leaves the table as it was. */
  method LlaveNulaEsRechazada(hash: string -> Int32) {
    var d := new Diccionario<string, int>(hash);
    var r := d.Put(Some("clave1"), 10);
    var antes := d.buckets[..];
    r := d.Put(None, 100);
    assert r == Err(LlaveNula);
    assert d.Get(None) == Err(LlaveNula);
    assert d.ContainsKey(None) == Err(LlaveNula);
    r := d.Remove(None);
    assert r == Err(LlaveNula);
    assert d.buckets[..] == antes;
    assert d.Get(Some("clave1")) == Ok(Some(10));
  }

  /** A successful put is seen by get, size and isEmpty. */
  method PutInsertaCorrectamente(hash: string -> Int32) {
    var d := new Diccionario<string, int>(hash);
    var r := d.Put(Some("clave1"), 100);
    assert r == Ok(true);
    var n := d.Size();
    assert n == 1;
    var e := d.IsEmpty();
    assert !e;
    assert d.Get(Some("clave1")) == Ok(Some(100));
  }

  /** Putting a key a second time is a collision with itself; the first value stays. */
  method PutMismaClaveEnBucketOcupadoLanzaColision(hash: string -> Int32) {
    var d := new Diccionario<string, int>(hash);
    var r := d.Put(Some("claveUnica"), 1);
    r := d.Put(Some("claveUnica"), 2);
    assert r == Err(Colision("claveUnica", Posicion(hash("claveUnica")), "claveUnica"));
    assert d.Get(Some("claveUnica")) == Ok(Some(1));
    var n := d.Size();
    assert n == 1;
  }

  /** The same key put twice collides with itself; a second key that was
      never stored is not found, cannot be removed, and does not disturb the
      first, whichever slot its hash code gives it. */
  method ClavesQueColisionan(hash: string -> Int32) {
    var c1, c2 := "clave_colision_1", "otra_clave_muy_diferente_para_colision";
    var d := new Diccionario<string, int>(hash);
    var r := d.Put(Some(c1), 10);
    assert r == Ok(true);
    r := d.Put(Some(c1), 20);
    assert r == Err(Colision(c1, Posicion(hash(c1)), c1));
    var n := d.Size();
    assert n == 1;
    assert d.Get(Some(c1)) == Ok(Some(10));
    assert d.Get(Some(c2)) == Ok(None);
    assert d.ContainsKey(Some(c2)) == Ok(false);
    r := d.Remove(Some(c2));
    assert r == Ok(false);
    n := d.Size();
    assert n == 1;
    assert d.ContainsKey(Some(c1)) == Ok(true);
  }

  /** Keys whose equality ignores their forced hash code: every name is
      forced to the same hash, so distinct names share one slot and only
      the comparison of keys tells them apart. */
  method LlavesConHashForzado() {
    var d := new Diccionario<string, int>(_ => 42);
    var r := d.Put(Some("uno"), 1);
    assert r == Ok(true);
    r := d.Put(Some("dos"), 2);
    assert r == Err(Colision("dos", 42, "uno"));
    assert d.Get(Some("dos")) == Ok(None);
    r := d.Remove(Some("dos"));
    assert r == Ok(false);
    assert d.Get(Some("uno")) == Ok(Some(1));
  }

  /** Size follows successful puts and removes, and ignores a rejected put. */
  method SizeRetornaNumeroCorrectoYManejaColisiones(hash: string -> Int32)
    requires Posicion(hash("a")) != Posicion(hash("b"))
    requires Posicion(hash("a")) != Posicion(hash("clave_colision_1"))
    requires Posicion(hash("b")) != Posicion(hash("clave_colision_1"))
  {
    var d := InsertaTres(hash, "a", "b", "clave_colision_1");
    RechazaRepetida(d, "a", "b", "clave_colision_1");
    RemueveLasTres(d, "a", "b", "clave_colision_1");
  }

  /** First part of the size test: three insertions into distinct slots. */
  method InsertaTres(hash: string -> Int32, a: string, b: string, c1: string)
    returns (d: Diccionario<string, int>)
    requires Posicion(hash(a)) != Posicion(hash(b))
    requires Posicion(hash(a)) != Posicion(hash(c1))
    requires Posicion(hash(b)) != Posicion(hash(c1))
    ensures fresh(d.buckets) && d.Valid() && Ocupados(d.buckets[..]) == 3
    ensures a in d.Model() && b in d.Model() && c1 in d.Model()
  {
    d := new Diccionario<string, int>(hash);
    var n := d.Size();
    assert n == 0;
    var r := d.Put(Some(a), 1);
    n := d.Size();
    assert n == 1;
    r := d.Put(Some(b), 2);
    n := d.Size();
    assert n == 2;
    r := d.Put(Some(c1), 3);
    n := d.Size();
    assert n == 3;
  }

  /** Second part: putting an already stored key again is rejected and the size stays. */
  method RechazaRepetida(d: Diccionario<string, int>, a: string, b: string, c1: string)
    requires d.Valid() && Ocupados(d.buckets[..]) == 3
    requires a in d.Model() && b in d.Model() && c1 in d.Model()
    modifies d.buckets
    ensures d.Valid() && Ocupados(d.buckets[..]) == 3
    ensures a in d.Model() && b in d.Model() && c1 in d.Model()
  {
    d.EnModelo(c1);
    var r := d.Put(Some(c1), 4);
    assert r == Err(Colision(c1, Posicion(d.hash(c1)), c1));
    var n := d.Size();
    assert n == 3;
  }

  /** Last part: each removal lowers the size by one, down to an empty dictionary. */
  method RemueveLasTres(d: Diccionario<string, int>, a: string, b: string, c1: string)
    requires d.Valid() && Ocupados(d.buckets[..]) == 3
    requires a != b && a != c1 && b != c1
    requires a in d.Model() && b in d.Model() && c1 in d.Model()
    modifies d.buckets
  {
    var r := d.Remove(Some(a));
    var n := d.Size();
    assert n == 2;
    r := d.Remove(Some(c1));
    n := d.Size();
    assert n == 1;
    r := d.Remove(Some(b));
    n := d.Size();
    assert n == 0;
    var e := d.IsEmpty();
    assert e;
  }
}
