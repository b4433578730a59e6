/**
 * The fields of an `Anillo<T>` (anillo.h:117-120) taken as plain values:
 * the ring invariant, the abstract ring they stand for, and what
 * `eliminar` does to both. Class Anillo.Anillo states its `Valid()` and
 * `Abs()` through these, so that each method reasons about values and
 * writes its fields once.
 */
module Estado {
  import opened RingSpec
  import opened Enlaces

  /**
   * The live nodes form one closed doubly-linked cycle of `tam` nodes
   * listed by `nodes` from `actual` forward; `enFila` (`_ultimoEnLaFila`)
   * is its last node; `ultimo` is NULL or one of them.
   */
  ghost predicate Invariante<T>(nodos: map<nat, Nodo<T>>, nodes: seq<nat>, libre: nat,
                                actual: Ptr, ultimo: Ptr, enFila: Ptr, tam: int) {
    && tam == |nodes|
    && Enlazado(nodos, nodes, libre)
    && (|nodes| == 0 ==> actual == Null && enFila == Null)
    && (|nodes| > 0 ==> actual == Ref(nodes[0]) && enFila == Ref(nodes[|nodes| - 1]))
    && (ultimo.Ref? ==> ultimo.id in nodes)
  }

  /** The values from the cursor on, and the anterior's value when `ultimo` is not NULL. */
  ghost function Vista<T>(nodos: map<nat, Nodo<T>>, nodes: seq<nat>, libre: nat, ultimo: Ptr): Ring<T>
    requires Vivos(nodos, nodes, libre) && (ultimo.Ref? ==> ultimo.id in nodes)
  {
    Ring(Personas(nodos, nodes),
         if ultimo.Null? then None
         else EnLista(nodos, nodes, libre, ultimo.id); Some(nodos[ultimo.id].persona))
  }

  /**
   * `eliminar(p)` where the first p from the cursor on is at position k
   * of a ring of at least two: the node is unlinked from between its
   * neighbours and freed, the cursor moves on if it was that node,
   * `_ultimoEnLaFila` moves back if it was that node, and an anterior
   * equal to p is forgotten. The result is again a ring, and it is
   * RingSpec.Eliminar of the old one.
   */
  lemma QuitarEn<T>(nodos: map<nat, Nodo<T>>, nodes: seq<nat>, libre: nat,
                    actual: Ptr, ultimo: Ptr, enFila: Ptr, tam: int, p: T, k: nat)
    requires Invariante(nodos, nodes, libre, actual, ultimo, enFila, tam) && 2 <= tam && k < tam
    requires Personas(nodos, nodes)[k] == p
    requires forall j :: 0 <= j < k ==> Personas(nodos, nodes)[j] != p
    ensures var n := tam;
      var N := TrasDesenlazar(nodos, nodes[Predecesor(k, n)], nodes[k], nodes[Sucesor(k, n)]);
      var m := nodes[..k] + nodes[k + 1..];
      var ultimo' := if ultimo.Ref? && nodos[ultimo.id].persona == p then Null else ultimo;
      && SiguienteDe(nodos, nodes[k]) == Ref(nodes[Sucesor(k, n)])
      && (k == 0 ==> m == nodes[1..])
      && (enFila == Ref(nodes[k]) <==> k == n - 1)
      && Invariante(N, m, libre, if k == 0 then Ref(nodes[1]) else actual, ultimo',
                    if k == n - 1 then Ref(nodes[n - 2]) else enFila, tam - 1)
      && Vista(N, m, libre, ultimo') == Eliminar(Vista(nodos, nodes, libre, ultimo), p)
  {
    var n := tam;
    var N := TrasDesenlazar(nodos, nodes[Predecesor(k, n)], nodes[k], nodes[Sucesor(k, n)]);
    var m := nodes[..k] + nodes[k + 1..];
    var ultimo' := if ultimo.Ref? && nodos[ultimo.id].persona == p then Null else ultimo;
    AdelanteEn(nodos, nodes, k);
    SinRepetidosSiiDistintos(nodes);
    EnlazadoDesenlaza(nodos, nodes, libre, k);
    EliminarEn(Vista(nodos, nodes, libre, ultimo), p, k);
    Quitado(nodes, k);
    if ultimo'.Ref? {
      EnRestantes(nodes, k, ultimo.id);
      EnlacesTrasDesenlazar(nodos, nodes[Predecesor(k, n)], nodes[k], nodes[Sucesor(k, n)], ultimo.id);
    }
    if k == 0 {
      assert m == nodes[1..];
      assert m[0] == nodes[1];
    } else {
      assert m[0] == nodes[0];
    }
    if k == n - 1 {
      assert m[n - 2] == nodes[n - 2];
    } else {
      assert m[n - 2] == nodes[n - 1];
    }
  }
}
