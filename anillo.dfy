/**
 * `Anillo<T>` (anillo.h): a ring of values kept as a circular doubly-linked
 * list of heap nodes, with a cursor `actual` (the node the next `siguiente`
 * returns), `ultimoEnLaFila` (the node just before the cursor, where
 * `agregar` splices), `ultimo` (the node `siguiente` returned last, NULL
 * when there is none or it was removed) and the size `tam`.
 *
 * The nodes live in the arena `nodos` (see module Enlaces); `libre` is the
 * next id `new Nodo()` hands out. The ghost `nodes` lists the live node ids
 * from the cursor forward. Every method is proved against the value-level
 * ring of module RingSpec: `Abs()` is the ring the object stands for.
 *
 * Where anillo.h breaks its own invariant or dereferences NULL, the methods
 * here follow the evidently intended behaviour; module ComoEscrito models
 * those statements as written.
 */
module Anillo {
  import opened RingSpec
  import opened Enlaces
  import opened Estado

  class Anillo<T(==)> {
    var nodos: map<nat, Nodo<T>>
    var libre: nat
    var actual: Ptr
    var ultimo: Ptr
    var ultimoEnLaFila: Ptr
    var tam: int

    /** The live node ids, from `actual` forward along `siguiente`. */
    ghost var nodes: seq<nat>

    /**
     * The ring invariant: the live nodes form one closed cycle of length
     * `tam`; `actual` is its first node and `ultimoEnLaFila` its last;
     * `ultimo` is NULL or one of them.
     */
    ghost predicate Valid()
      reads this
    {
      Invariante(nodos, nodes, libre, actual, ultimo, ultimoEnLaFila, tam)
    }

    /** The abstract ring this object represents. */
    ghost function Abs(): Ring<T>
      reads this
      requires Valid()
    {
      Vista(nodos, nodes, libre, ultimo)
    }

    /** `Anillo()`: an empty ring. */
    constructor ()
      ensures Valid() && Abs() == Vacio()
    {
      nodos, libre := map[], 0;
      actual := Null;
      ultimo := Null;
      ultimoEnLaFila := Null;
      tam := 0;
      nodes := [];
    }

    /**
     * `Anillo(const Anillo<T>& otro)`: the values of `otro` are added from
     * its last one back to its cursor, so they end up in the same order;
     * then the anterior is found again by value.
     */
    constructor Copia(otro: Anillo<T>)
      requires otro.Valid()
      ensures Valid() && Abs() == otro.Abs()
    {
      nodos, libre := map[], 0;
      actual := Null;
      ultimo := Null;
      ultimoEnLaFila := Null;
      tam := 0;
      nodes := [];
      new;
      var restan := otro.tam;
      var cur := otro.ultimoEnLaFila;
      while restan > 0
        invariant Valid() && ultimo == Null
        invariant 0 <= restan <= otro.tam
        invariant Abs().elems == otro.Abs().elems[restan..]
        invariant restan > 0 ==> cur == Ref(otro.nodes[restan - 1])
        decreases restan
      {
        AtrasEn(otro.nodos, otro.nodes, restan - 1);
        var x := otro.nodos[cur.id].persona;
        assert x == otro.Abs().elems[restan - 1];
        Agregar(x);
        cur := AnteriorDe(otro.nodos, cur.id);
        restan := restan - 1;
        assert otro.Abs().elems[restan..] == [x] + otro.Abs().elems[restan + 1..];
      }
      if otro.ultimo != Null {
        SetearUltimo(otro.Anterior(), otro.HuboAnterior());
      }
    }

    /** `esVacio()`. */
    function EsVacio(): (b: bool)
      reads this
      requires Valid()
      ensures b <==> Abs().elems == []
    {
      tam == 0
    }

    /** `tamanio()`. */
    function Tamanio(): (n: int)
      reads this
      requires Valid()
      ensures n == |Abs().elems|
    {
      tam
    }

    /** `huboAnterior()`: some value was returned by `siguiente` and is still in the ring. */
    function HuboAnterior(): (b: bool)
      reads this
      requires Valid()
      ensures b <==> Abs().prev.Some?
    {
      ultimo != Null
    }

    /** `anterior()`: the value last returned by `siguiente`; the header gives no meaning without one. */
    function Anterior(): (v: T)
      reads this
      requires Valid() && HuboAnterior()
      ensures Abs().prev == Some(v)
      ensures v in Abs().elems
    {
      EnLista(nodos, nodes, libre, ultimo.id);
      nodos[ultimo.id].persona
    }

    /**
     * `setearUltimo(valor, sacoBasura)`: when `sacoBasura` holds, the
     * anterior becomes the last node, from the cursor on, that holds
     * `valor`; otherwise, or when no node holds it, nothing changes.
     */
    method SetearUltimo(valor: T, sacoBasura: bool)
      requires Valid()
      modifies this
      ensures Valid()
      ensures Abs().elems == old(Abs()).elems
      ensures Abs().prev == if sacoBasura && valor in old(Abs()).elems then Some(valor) else old(Abs()).prev
      ensures ultimo == if sacoBasura && valor in old(Abs()).elems
                        then Ref(nodes[LastIndex(old(Abs()).elems, valor)]) else old(ultimo)
      ensures nodos == old(nodos) && nodes == old(nodes)
    {
      ghost var n := |nodes|;
      ghost var e := Abs().elems;
      var restan := tam;
      var cur := actual;
      var ultimo' := ultimo;
      ghost var i: nat := 0;
      while cur != Null && restan > 0
        invariant i <= n && restan == n - i
        invariant i < n ==> cur == Ref(nodes[i])
        invariant ultimo' == if sacoBasura && valor in e[..i] then Ref(nodes[LastIndex(e[..i], valor)]) else ultimo
        decreases restan
        modifies {}
      {
        LastIndexPrefijo(e, valor, i);
        if nodos[cur.id].persona == valor {
          if sacoBasura {
            ultimo' := cur;
          }
        }
        AdelanteEn(nodos, nodes, i);
        cur := SiguienteDe(nodos, cur.id);
        restan := restan - 1;
        i := i + 1;
      }
      assert e[..n] == e;
      ultimo := ultimo';
    }

    /** `siguiente()`: returns the cursor's value, which becomes the anterior, and moves the cursor on. */
    method Siguiente() returns (v: T)
      requires Valid() && tam > 0
      modifies this
      ensures Valid()
      ensures v == old(Abs()).elems[0]
      ensures Abs() == Avanzar(old(Abs()))
      ensures nodos == old(nodos)
    {
      EnlazadoRota(nodos, nodes, libre);
      ultimo, ultimoEnLaFila, actual, nodes := actual, actual, SiguienteDe(nodos, actual.id), nodes[1..] + [nodes[0]];
      v := nodos[ultimo.id].persona;
    }

    /** `agregar(x)`: a new node holding x is spliced in before `actual` and becomes `actual`. */
    method Agregar(x: T)
      requires Valid()
      modifies this
      ensures Valid() && Abs() == RingSpec.Agregar(old(Abs()), x)
      ensures nodes == [old(libre)] + old(nodes) && ultimo == old(ultimo)
    {
      // The statements of anillo.h, in order, on a local copy of the arena.
      var nuevo := libre;
      var nodos' := nodos[nuevo := Nodo(x, actual, Null)];
      var enFila := ultimoEnLaFila;
      if tam == 0 {
        enFila := Ref(nuevo);
      } else {
        nodos' := nodos'[actual.id := nodos'[actual.id].(anterior := Ref(nuevo))];
      }
      nodos' := nodos'[enFila.id := nodos'[enFila.id].(siguiente := Ref(nuevo))];
      nodos' := nodos'[nuevo := nodos'[nuevo].(anterior := enFila)];
      if tam == 0 {
        EnlazadoAgregarVacio(nodos, libre, x);
      } else {
        EnlazadoAgregar(nodos, nodes, libre, x);
      }
      assert nodos' == TrasAgregar(nodos, actual, ultimoEnLaFila, nuevo, x);
      nodos, libre, ultimoEnLaFila, actual, tam, nodes := nodos', libre + 1, enFila, Ref(nuevo), tam + 1, [nuevo] + nodes;
    }

    /**
     * `retroceder()`: the cursor moves to its predecessor and the anterior
     * is kept. `ultimoEnLaFila` becomes the new cursor's predecessor
     * (anillo.h sets it to `ultimo`).
     */
    method Retroceder()
      requires Valid() && tam > 0
      modifies this
      ensures Valid() && Abs() == RingSpec.Retroceder(old(Abs()))
      ensures nodos == old(nodos) && ultimo == old(ultimo)
    {
      EnlazadoRetrocede(nodos, nodes, libre);
      var nuevoActual := AnteriorDe(nodos, actual.id);
      ghost var n := |nodes|;
      assert ultimo.Ref? ==> ultimo.id in [nodes[n - 1]] + nodes[..n - 1] by {
        if ultimo.Ref? {
          var j :| 0 <= j < n && nodes[j] == ultimo.id;
          assert ([nodes[n - 1]] + nodes[..n - 1])[Sucesor(j, n)] == ultimo.id;
        }
      }
      actual, ultimoEnLaFila, nodes := nuevoActual, AnteriorDe(nodos, nuevoActual.id), [nodes[n - 1]] + nodes[..n - 1];
    }

    /**
     * `eliminar(p)`: the first node holding p, from the cursor on, is
     * unlinked and freed; an anterior equal to p is forgotten; nothing
     * changes when p is absent.
     */
    method Eliminar(p: T)
      requires Valid()
      modifies this
      ensures Valid() && Abs() == RingSpec.Eliminar(old(Abs()), p)
    {
      if tam == 0 {
        // anillo.h dereferences the NULL cursor here.
        EliminarAusente(Abs(), p);
      } else if tam == 1 {
        // anillo.h frees the only node whatever value it holds.
        if nodos[actual.id].persona == p {
          EliminarEn(Abs(), p, 0);
          nodos, actual, ultimo, ultimoEnLaFila, tam, nodes := nodos - {actual.id}, Null, Null, Null, 0, [];
        } else {
          EliminarAusente(Abs(), p);
        }
      } else if nodos[actual.id].persona == p {
        EliminarActual(p);
      } else {
        var encontrado, anterior, act, k := Buscar(p);
        if encontrado {
          EliminarTras(anterior, act, k, p);
        } else {
          EliminarAusente(Abs(), p);
        }
      }
    }

    /** `eliminar(p)` when the cursor's node holds p: it goes and its successor becomes the cursor. */
    method EliminarActual(p: T)
      requires Valid() && tam >= 2 && nodos[actual.id].persona == p
      modifies this
      ensures Valid() && Abs() == RingSpec.Eliminar(old(Abs()), p)
    {
      ghost var n := |nodes|;
      QuitarEn(nodos, nodes, libre, actual, ultimo, ultimoEnLaFila, tam, p, 0);
      var anterior := actual;
      var siguiente := SiguienteDe(nodos, actual.id);
      var nodos' := nodos[ultimoEnLaFila.id := nodos[ultimoEnLaFila.id].(siguiente := siguiente)];
      // anillo.h leaves the new cursor's `anterior` on the freed node.
      nodos' := nodos'[siguiente.id := nodos'[siguiente.id].(anterior := ultimoEnLaFila)];
      var ultimo' := if ultimo.Ref? && nodos[ultimo.id].persona == p then Null else ultimo;
      nodos' := nodos' - {anterior.id};
      assert nodos' == TrasDesenlazar(nodos, nodes[n - 1], nodes[0], nodes[1]);
      nodos, actual, ultimo, tam, nodes := nodos', siguiente, ultimo', tam - 1, nodes[1..];
    }

    /**
     * The walk of `eliminar(p)` past the cursor: `anterior` follows one node
     * behind `act` until `act` holds p or every node has been looked at.
     * It finds p exactly when p is in the ring, at its first position.
     */
    method Buscar(p: T) returns (encontrado: bool, anterior: Ptr, act: Ptr, ghost k: nat)
      requires Valid() && tam >= 2 && nodos[actual.id].persona != p
      ensures encontrado <==> p in Abs().elems
      ensures encontrado ==> && 0 < k < |nodes|
                             && anterior == Ref(nodes[k - 1]) && act == Ref(nodes[k])
                             && Abs().elems[k] == p
                             && forall j :: 0 <= j < k ==> Abs().elems[j] != p
    {
      ghost var n := |nodes|;
      ghost var e := Abs().elems;
      var restan := tam;
      ghost var i: nat := 0;
      encontrado, anterior, act, k := false, actual, actual, 0;
      while restan > 0
        invariant 0 <= restan <= n && i < n && anterior == Ref(nodes[i])
        invariant restan > 0 ==> i == n - restan
        invariant forall j :: 0 <= j < n && j <= n - restan ==> e[j] != p
        decreases restan
      {
        AdelanteEn(nodos, nodes, i);
        act := SiguienteDe(nodos, anterior.id);
        if nodos[act.id].persona == p {
          encontrado, k := true, i + 1;
          break;
        }
        anterior := act;
        i := Sucesor(i, n);
        restan := restan - 1;
      }
      if encontrado {
        assert e[k] == p;
      } else {
        assert forall j :: 0 <= j < n ==> e[j] != p;
      }
    }

    /**
     * `eliminar(p)` once the walk found p at `act`, the node after
     * `anterior`: `act` is unlinked and freed.
     */
    method EliminarTras(anterior: Ptr, act: Ptr, ghost k: nat, p: T)
      requires Valid() && 0 < k < |nodes|
      requires anterior == Ref(nodes[k - 1]) && act == Ref(nodes[k])
      requires Abs().elems[k] == p && forall j :: 0 <= j < k ==> Abs().elems[j] != p
      modifies this
      ensures Valid() && Abs() == RingSpec.Eliminar(old(Abs()), p)
    {
      ghost var n := |nodes|;
      QuitarEn(nodos, nodes, libre, actual, ultimo, ultimoEnLaFila, tam, p, k);
      var siguiente := SiguienteDe(nodos, act.id);
      var nodos' := nodos[anterior.id := nodos[anterior.id].(siguiente := siguiente)];
      nodos' := nodos'[siguiente.id := nodos'[siguiente.id].(anterior := anterior)];
      var ultimo' := if ultimo.Ref? && nodos[ultimo.id].persona == p then Null else ultimo;
      // anillo.h sets `ultimoEnLaFila` to NULL when it holds p.
      var enFila := if ultimoEnLaFila == act then anterior else ultimoEnLaFila;
      nodos' := nodos' - {act.id};
      assert nodos' == TrasDesenlazar(nodos, nodes[k - 1], nodes[k], nodes[Sucesor(k, n)]);
      nodos, ultimo, ultimoEnLaFila, tam, nodes := nodos', ultimo', enFila, tam - 1, nodes[..k] + nodes[k + 1..];
    }

    /** One value as `mostrarAnillo` writes it: `*` follows a value equal to the anterior. */
    method Escribir(v: T, show: T -> string) returns (celda: string)
      requires Valid()
      ensures celda == Celda(v, Abs().prev, show)
    {
      celda := show(v);
      if HuboAnterior() && Anterior() == v {
        celda := celda + "*";
      }
    }

    /**
     * `mostrarAnillo(os)`: the values from the cursor on, between brackets
     * and separated by ", ", each followed by `*` when it equals the
     * anterior. `show` renders one value (`operator<<` of T).
     */
    method MostrarAnillo(show: T -> string) returns (s: string)
      requires Valid()
      ensures s == Mostrar(Abs(), show)
    {
      ghost var n := |nodes|;
      ghost var e, prev := Abs().elems, Abs().prev;
      var cur := actual;
      var restan := tam;
      s := "[";
      if restan > 0 {
        var celda := Escribir(nodos[cur.id].persona, show);
        assert e[..1] == [e[0]];
        s := s + celda;
      }
      ghost var i: nat := 0;
      while restan > 1
        invariant n > 0 ==> i < n && restan == n - i && cur == Ref(nodes[i])
                            && s == "[" + Celdas(e[..i + 1], prev, show)
        invariant n == 0 ==> restan == 0 && s == "["
        decreases restan
      {
        AdelanteEn(nodos, nodes, i);
        cur := SiguienteDe(nodos, cur.id);
        i := i + 1;
        var celda := Escribir(nodos[cur.id].persona, show);
        assert e[..i + 1][..i] == e[..i];
        s := s + ", " + celda;
        restan := restan - 1;
      }
      if n > 0 {
        assert e[..i + 1] == e;
      }
      s := s + "]";
    }

    /**
     * `operator==(otro)`: same size, equal values pairwise from both
     * cursors, and equal anteriors. Two rings without an anterior have
     * equal anteriors (anillo.h dereferences NULL there).
     */
    method Iguales(otro: Anillo<T>) returns (b: bool)
      requires Valid() && otro.Valid()
      ensures b == RingSpec.Iguales(Abs(), otro.Abs())
      ensures b <==> Abs() == otro.Abs()
    {
      IgualesEsIgualdad(Abs(), otro.Abs());
      ghost var ea, eb := Abs().elems, otro.Abs().elems;
      var actualA := actual;
      var actualB := otro.actual;
      if otro.tam != tam {
        return false;
      }
      var restan := tam;
      ghost var n := tam;
      ghost var i: nat := 0;
      while restan > 0
        invariant i <= n && restan == n - i
        invariant i < n ==> actualA == Ref(nodes[i]) && actualB == Ref(otro.nodes[i])
        invariant forall j :: 0 <= j < i ==> ea[j] == eb[j]
        decreases restan
      {
        if nodos[actualA.id].persona != otro.nodos[actualB.id].persona {
          assert ea[i] != eb[i];
          return false;
        }
        AdelanteEn(nodos, nodes, i);
        AdelanteEn(otro.nodos, otro.nodes, i);
        actualA := SiguienteDe(nodos, actualA.id);
        actualB := SiguienteDe(otro.nodos, actualB.id);
        restan := restan - 1;
        i := i + 1;
      }
      if ultimo == Null || otro.ultimo == Null {
        return ultimo == otro.ultimo;
      }
      if Anterior() != otro.Anterior() {
        return false;
      }
      return true;
    }
  }
}
