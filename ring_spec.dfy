/**
 * The value-level meaning of a ring `Anillo<T>`: the values listed from the
 * cursor forward, and the "anterior" (the value most recently returned by
 * `siguiente`), if the ring still remembers one.
 *
 * The class in module Anillo is proved against the functions below; the
 * lemmas state what the header documents about the operations.
 */
module RingSpec {

  datatype Option<T> = None | Some(value: T)

  /** elems[0] is the value the next `siguiente` returns; `prev` is the anterior. */
  datatype Ring<T> = Ring(elems: seq<T>, prev: Option<T>)

  /** A remembered anterior is a value that is still in the ring. */
  ghost predicate WellFormed<T>(r: Ring<T>) {
    r.prev.Some? ==> r.prev.value in r.elems
  }

  /** A freshly constructed ring. */
  function Vacio<T>(): Ring<T> {
    Ring([], None)
  }

  /** `agregar(x)`: x goes in front of the cursor and becomes the cursor. */
  function Agregar<T>(r: Ring<T>, x: T): Ring<T> {
    Ring([x] + r.elems, r.prev)
  }

  /** The state after `siguiente`: the cursor value becomes the anterior and the cursor moves on. */
  function Avanzar<T>(r: Ring<T>): Ring<T>
    requires |r.elems| > 0
  {
    Ring(r.elems[1..] + [r.elems[0]], Some(r.elems[0]))
  }

  /** `retroceder`: the cursor moves to its predecessor; the anterior is kept. */
  function Retroceder<T>(r: Ring<T>): Ring<T>
    requires |r.elems| > 0
  {
    var n := |r.elems|;
    Ring([r.elems[n - 1]] + r.elems[..n - 1], r.prev)
  }

  /** The sequence without its first occurrence of p (unchanged when p does not occur). */
  function QuitarPrimero<T(==)>(s: seq<T>, p: T): seq<T> {
    if |s| == 0 then []
    else if s[0] == p then s[1..]
    else [s[0]] + QuitarPrimero(s[1..], p)
  }

  /** `eliminar(p)`: the first p from the cursor on goes; an anterior equal to p is forgotten. */
  function Eliminar<T(==)>(r: Ring<T>, p: T): Ring<T> {
    if p !in r.elems then r
    else Ring(QuitarPrimero(r.elems, p), if r.prev == Some(p) then None else r.prev)
  }

  /** `operator==`: same size, equal values pairwise from each cursor, equal anteriors. */
  predicate Iguales<T(==)>(a: Ring<T>, b: Ring<T>) {
    && |a.elems| == |b.elems|
    && (forall i :: 0 <= i < |a.elems| ==> a.elems[i] == b.elems[i])
    && a.prev == b.prev
  }

  /** The position of the first p in s. */
  function FirstIndex<T(==)>(s: seq<T>, p: T): (k: nat)
    requires p in s
    ensures k < |s| && s[k] == p
    ensures forall j :: 0 <= j < k ==> s[j] != p
  {
    if s[0] == p then 0 else 1 + FirstIndex(s[1..], p)
  }

  /** The position of the last p in s. */
  function LastIndex<T(==)>(s: seq<T>, p: T): (k: nat)
    requires p in s
    ensures k < |s| && s[k] == p
    ensures forall j :: k < j < |s| ==> s[j] != p
  {
    var n := |s|;
    if s[n - 1] == p then n - 1
    else
      assert p in s[..n - 1] by {
        var i :| 0 <= i < n && s[i] == p;
        assert s[..n - 1][i] == p;
      }
      LastIndex(s[..n - 1], p)
  }

  /** One more value at the end of a prefix: the last p is there, or where it was before. */
  lemma LastIndexPrefijo<T>(s: seq<T>, p: T, i: nat)
    requires i < |s|
    ensures p in s[..i + 1] <==> s[i] == p || p in s[..i]
    ensures s[i] == p ==> LastIndex(s[..i + 1], p) == i
    ensures s[i] != p && p in s[..i] ==> LastIndex(s[..i + 1], p) == LastIndex(s[..i], p)
  {
    assert s[..i + 1] == s[..i] + [s[i]];
    assert s[..i + 1][..i] == s[..i];
  }

  // ---------------------------------------------------------------------
  // Rendering (`mostrarAnillo`)
  // ---------------------------------------------------------------------

  /** One listed value, followed by `*` when it equals the anterior. */
  function Celda<T(==)>(v: T, prev: Option<T>, show: T -> string): string {
    show(v) + (if prev == Some(v) then "*" else "")
  }

  /** The listed values joined by ", ". */
  function Celdas<T(==)>(s: seq<T>, prev: Option<T>, show: T -> string): string {
    if |s| == 0 then ""
    else if |s| == 1 then Celda(s[0], prev, show)
    else Celdas(s[..|s| - 1], prev, show) + ", " + Celda(s[|s| - 1], prev, show)
  }

  /** The text `mostrarAnillo` writes: `[]`, `[e1]`, `[e1, e2*]`, ... */
  function Mostrar<T(==)>(r: Ring<T>, show: T -> string): string {
    "[" + Celdas(r.elems, r.prev, show) + "]"
  }

  /** Decimal text of a natural number. */
  function NatToString(n: nat): string {
    if n < 10 then ["0123456789"[n]] else NatToString(n / 10) + ["0123456789"[n % 10]]
  }

  /** `operator<<` for int, as the tests render `Anillo<int>`. */
  function IntToString(i: int): string {
    if i < 0 then "-" + NatToString(-i) else NatToString(i)
  }

  // ---------------------------------------------------------------------
  // Repeated `siguiente`
  // ---------------------------------------------------------------------

  /** The state after k calls of `siguiente`. */
  function AvanzarN<T>(r: Ring<T>, k: nat): Ring<T>
    requires |r.elems| > 0
    decreases k
  {
    if k == 0 then r else AvanzarN(Avanzar(r), k - 1)
  }

  /** The values returned by k calls of `siguiente`. */
  function Producidos<T>(r: Ring<T>, k: nat): seq<T>
    requires |r.elems| > 0
    decreases k
  {
    if k == 0 then [] else [r.elems[0]] + Producidos(Avanzar(r), k - 1)
  }

  // ---------------------------------------------------------------------
  // Properties
  // ---------------------------------------------------------------------

  /** A new ring is empty and has no anterior. */
  lemma VacioEsVacio<T>()
    ensures |Vacio<T>().elems| == 0 && Vacio<T>().prev == None && WellFormed(Vacio<T>())
  {
  }

  /**
   * "The last one added is the next in order": after `agregar(x)` the ring
   * is one larger, `siguiente` returns x, and the values that were there
   * follow x in their old cyclic order.
   */
  lemma AgregarLuegoSiguiente<T>(r: Ring<T>, x: T)
    ensures |Agregar(r, x).elems| == |r.elems| + 1
    ensures Agregar(r, x).elems[0] == x && Agregar(r, x).elems[1..] == r.elems
    ensures Avanzar(Agregar(r, x)) == Ring(r.elems + [x], Some(x))
  {
    assert (Agregar(r, x).elems)[1..] == r.elems;
  }

  /**
   * k calls of `siguiente` (k up to the size) return the first k values in
   * order and leave the ring rotated by k, with the last value returned as
   * the anterior.
   */
  lemma {:induction false} AvanzarNRota<T>(r: Ring<T>, k: nat)
    requires |r.elems| > 0 && k <= |r.elems|
    ensures AvanzarN(r, k).elems == r.elems[k..] + r.elems[..k]
    ensures Producidos(r, k) == r.elems[..k]
    ensures AvanzarN(r, k).prev == if k == 0 then r.prev else Some(r.elems[k - 1])
    decreases k
  {
    if k == 0 {
      assert r.elems[0..] + r.elems[..0] == r.elems;
    } else {
      var e := r.elems;
      var r1 := Avanzar(r);
      var e1 := r1.elems;
      assert e1 == e[1..] + [e[0]];
      AvanzarNRota(r1, k - 1);
      if k - 1 == 0 {
        assert AvanzarN(r1, 0) == r1;
      } else {
        assert e1[k - 2] == e[k - 1];
      }
      assert e1[k - 1..] + e1[..k - 1] == e[k..] + e[..k] by {
        assert e1[k - 1..] == e[k..] + [e[0]];
        assert e1[..k - 1] == e[1..k];
        assert e[..k] == [e[0]] + e[1..k];
      }
      assert Producidos(r, k) == [e[0]] + Producidos(r1, k - 1);
      assert [e[0]] + e1[..k - 1] == e[..k];
    }
  }

  /**
   * `siguiente` cycles: after `tamanio()` calls every value has been
   * returned once, in ring order, and the cursor is back where it started.
   */
  lemma SiguienteCicla<T>(r: Ring<T>)
    requires |r.elems| > 0
    ensures Producidos(r, |r.elems|) == r.elems
    ensures AvanzarN(r, |r.elems|).elems == r.elems
    ensures AvanzarN(r, |r.elems|).prev == Some(r.elems[|r.elems| - 1])
  {
    AvanzarNRota(r, |r.elems|);
    assert r.elems[|r.elems|..] + r.elems[..|r.elems|] == r.elems;
  }

  /** `retroceder` right after `siguiente` restores the cursor and keeps the new anterior. */
  lemma RetrocederDeshaceSiguiente<T>(r: Ring<T>)
    requires |r.elems| > 0
    ensures |Avanzar(r).elems| > 0
    ensures Retroceder(Avanzar(r)) == Ring(r.elems, Some(r.elems[0]))
  {
    var e := r.elems;
    var e1 := Avanzar(r).elems;
    assert e1[|e1| - 1] == e[0];
    assert e1[..|e1| - 1] == e[1..];
    assert [e[0]] + e[1..] == e;
  }

  /**
   * `siguiente` right after `retroceder` returns the value that was last
   * in the ring and brings the cursor back.
   */
  lemma SiguienteDeshaceRetroceder<T>(r: Ring<T>)
    requires |r.elems| > 0
    ensures |Retroceder(r).elems| > 0
    ensures Retroceder(r).elems[0] == r.elems[|r.elems| - 1]
    ensures Avanzar(Retroceder(r)).elems == r.elems
  {
    var e := r.elems;
    var e1 := Retroceder(r).elems;
    assert e1[1..] == e[..|e| - 1];
    assert e[..|e| - 1] + [e[|e| - 1]] == e;
  }

  /** Removing the first p is splicing it out at its first position. */
  lemma {:induction false} QuitarPrimeroEnPrimera<T>(s: seq<T>, p: T)
    requires p in s
    ensures QuitarPrimero(s, p) == s[..FirstIndex(s, p)] + s[FirstIndex(s, p) + 1..]
  {
    if s[0] != p {
      QuitarPrimeroEnPrimera(s[1..], p);
      var k := FirstIndex(s[1..], p);
      assert s[1..][..k] + s[1..][k + 1..] == s[1..k + 1] + s[k + 2..];
      assert [s[0]] + s[1..k + 1] == s[..k + 1];
    }
  }

  /** Removing the first p takes exactly one p away and no other value. */
  lemma {:induction false} QuitarPrimeroMultiset<T>(s: seq<T>, p: T)
    ensures p in s ==> multiset(QuitarPrimero(s, p)) == multiset(s) - multiset{p}
    ensures p !in s ==> QuitarPrimero(s, p) == s
  {
    if |s| > 0 {
      assert s == [s[0]] + s[1..];
      if s[0] != p {
        QuitarPrimeroMultiset(s[1..], p);
      }
    }
  }

  /**
   * `eliminar(p)` with p present removes exactly one value, the first p
   * from the cursor on; the others keep their cyclic order, and the ring
   * no longer has an anterior exactly when the anterior was p.
   */
  lemma EliminarPresente<T>(r: Ring<T>, p: T)
    requires p in r.elems
    ensures |Eliminar(r, p).elems| == |r.elems| - 1
    ensures Eliminar(r, p).elems
         == r.elems[..FirstIndex(r.elems, p)] + r.elems[FirstIndex(r.elems, p) + 1..]
    ensures multiset(Eliminar(r, p).elems) == multiset(r.elems) - multiset{p}
    ensures Eliminar(r, p).prev.None? <==> r.prev.None? || r.prev == Some(p)
  {
    QuitarPrimeroEnPrimera(r.elems, p);
    QuitarPrimeroMultiset(r.elems, p);
  }

  /** `eliminar(p)` where p first occurs at position k splices out position k. */
  lemma EliminarEn<T>(r: Ring<T>, p: T, k: nat)
    requires k < |r.elems| && r.elems[k] == p
    requires forall j :: 0 <= j < k ==> r.elems[j] != p
    ensures Eliminar(r, p) == Ring(r.elems[..k] + r.elems[k + 1..], if r.prev == Some(p) then None else r.prev)
  {
    assert FirstIndex(r.elems, p) == k;
    QuitarPrimeroEnPrimera(r.elems, p);
  }

  /** `eliminar(p)` with p absent leaves the ring as it was. */
  lemma EliminarAusente<T>(r: Ring<T>, p: T)
    requires p !in r.elems
    ensures Eliminar(r, p) == r
  {
  }

  /** Every operation keeps a remembered anterior inside the ring. */
  lemma OperacionesConservanWellFormed<T>(r: Ring<T>, x: T)
    requires WellFormed(r)
    ensures WellFormed(Agregar(r, x))
    ensures |r.elems| > 0 ==> WellFormed(Avanzar(r)) && WellFormed(Retroceder(r))
    ensures WellFormed(Eliminar(r, x))
  {
    if |r.elems| > 0 {
      var n := |r.elems|;
      assert r.elems == r.elems[..n - 1] + [r.elems[n - 1]];
      assert multiset(Retroceder(r).elems) == multiset(r.elems);
    }
    if x in r.elems && r.prev.Some? && r.prev != Some(x) {
      QuitarPrimeroMultiset(r.elems, x);
      assert r.prev.value in multiset(Eliminar(r, x).elems);
    }
  }

  /** `operator==` is equality of the abstract rings. */
  lemma IgualesEsIgualdad<T>(a: Ring<T>, b: Ring<T>)
    ensures Iguales(a, b) <==> a == b
  {
    if Iguales(a, b) {
      assert a.elems == b.elems;
    }
  }

  /**
   * Under a rendering of values that never writes `*`, the rendering has
   * one `*` per value equal to the anterior, and none without an anterior.
   */
  lemma {:induction false} MarcasDeCeldas<T>(s: seq<T>, prev: Option<T>, show: T -> string)
    requires forall v :: '*' !in show(v)
    ensures multiset(Celdas(s, prev, show))['*']
         == if prev.Some? then multiset(s)[prev.value] else 0
  {
    if |s| > 0 {
      var n := |s|;
      var last := s[n - 1];
      assert s == s[..n - 1] + [last];
      assert multiset(Celda(last, prev, show))['*']
          == if prev == Some(last) then 1 else 0 by {
        assert '*' !in show(last);
        assert multiset(show(last))['*'] == 0;
      }
      if n > 1 {
        MarcasDeCeldas(s[..n - 1], prev, show);
        assert multiset(", ")['*'] == 0;
      } else {
        assert s == [last];
      }
    }
  }

  /** The whole rendering: brackets and separators carry no `*`. */
  lemma MarcasDeMostrar<T>(r: Ring<T>, show: T -> string)
    requires forall v :: '*' !in show(v)
    ensures multiset(Mostrar(r, show))['*']
         == if r.prev.Some? then multiset(r.elems)[r.prev.value] else 0
  {
    MarcasDeCeldas(r.elems, r.prev, show);
  }
}
