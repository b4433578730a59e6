/**
 * The nodes of an `Anillo<T>` (anillo.h) and the links between them.
 *
 * The C++ heap of `struct Nodo` objects is an arena: a map from node ids to
 * node values, each holding the element (`persona`) and the two links
 * (`siguiente`, `anterior`). `new Nodo()` takes an id that is not in use;
 * `delete` removes the id from the map. This module says when a sequence of
 * ids is one closed doubly-linked cycle in such an arena, and how the link
 * rewiring done by `agregar`, `siguiente`, `retroceder` and `eliminar` keeps
 * it one.
 */
module Enlaces {

  /** A node pointer; `Null` is C++'s NULL. */
  datatype Ptr = Null | Ref(id: nat)

  /** `struct Nodo`: the element and the two links. */
  datatype Nodo<T> = Nodo(persona: T, siguiente: Ptr, anterior: Ptr)

  /** The position after i in a cycle of n positions. */
  function Sucesor(i: nat, n: nat): nat
    requires i < n
  {
    if i + 1 == n then 0 else i + 1
  }

  /** The position before i in a cycle of n positions. */
  function Predecesor(i: nat, n: nat): nat
    requires i < n
  {
    if i == 0 then n - 1 else i - 1
  }

  /** `k->siguiente` (NULL for an id that is not allocated). */
  function SiguienteDe<T>(nodos: map<nat, Nodo<T>>, k: nat): Ptr {
    if k in nodos then nodos[k].siguiente else Null
  }

  /** `k->anterior` (NULL for an id that is not allocated). */
  function AnteriorDe<T>(nodos: map<nat, Nodo<T>>, k: nat): Ptr {
    if k in nodos then nodos[k].anterior else Null
  }

  // ---------------------------------------------------------------------
  // The cycle
  // ---------------------------------------------------------------------

  /** The ids are pairwise distinct. */
  ghost predicate Distintos(nodes: seq<nat>) {
    forall i, j :: 0 <= i < j < |nodes| ==> nodes[i] != nodes[j]
  }

  /** The same, stated one id at a time; this is the form the ring invariant uses. */
  ghost predicate SinRepetidos(s: seq<nat>) {
    |s| == 0 || (s[0] !in s[1..] && SinRepetidos(s[1..]))
  }

  /** Every listed id is allocated and below the allocator's next id. */
  ghost predicate Vivos<T>(nodos: map<nat, Nodo<T>>, nodes: seq<nat>, libre: nat) {
    forall i :: 0 <= i < |nodes| ==> nodes[i] in nodos && nodes[i] < libre
  }

  /** Following `siguiente` from each listed node reaches the next one, the last reaching the first. */
  ghost predicate Adelante<T>(nodos: map<nat, Nodo<T>>, nodes: seq<nat>) {
    forall i {:trigger SiguienteDe(nodos, nodes[i])} :: 0 <= i < |nodes| ==>
      SiguienteDe(nodos, nodes[i]) == Ref(nodes[Sucesor(i, |nodes|)])
  }

  /** Following `anterior` from each listed node reaches the one before, the first reaching the last. */
  ghost predicate Atras<T>(nodos: map<nat, Nodo<T>>, nodes: seq<nat>) {
    forall i {:trigger AnteriorDe(nodos, nodes[i])} :: 0 <= i < |nodes| ==>
      AnteriorDe(nodos, nodes[i]) == Ref(nodes[Predecesor(i, |nodes|)])
  }

  /** `nodes` is one closed doubly-linked cycle of live nodes. */
  ghost predicate Enlazado<T>(nodos: map<nat, Nodo<T>>, nodes: seq<nat>, libre: nat) {
    SinRepetidos(nodes) && Vivos(nodos, nodes, libre) && Adelante(nodos, nodes) && Atras(nodos, nodes)
  }

  /** The elements held by the listed nodes, in order. */
  ghost function Personas<T>(nodos: map<nat, Nodo<T>>, nodes: seq<nat>): (s: seq<T>)
    requires forall i :: 0 <= i < |nodes| ==> nodes[i] in nodos
    ensures |s| == |nodes|
    ensures forall i {:trigger s[i]} :: 0 <= i < |nodes| ==> s[i] == nodos[nodes[i]].persona
  {
    seq(|nodes|, i requires 0 <= i < |nodes| => nodos[nodes[i]].persona)
  }

  lemma {:induction false} SinRepetidosSiiDistintos(s: seq<nat>)
    ensures SinRepetidos(s) <==> Distintos(s)
  {
    if |s| > 0 {
      var t := s[1..];
      SinRepetidosSiiDistintos(t);
      if SinRepetidos(s) {
        forall i, j | 0 <= i < j < |s| ensures s[i] != s[j] {
          assert s[j] == t[j - 1];
          if i > 0 {
            assert s[i] == t[i - 1];
          }
        }
      }
      if Distintos(s) {
        forall i, j | 0 <= i < j < |t| ensures t[i] != t[j] {
          assert t[i] == s[i + 1] && t[j] == s[j + 1];
        }
      }
    }
  }

  /** The `siguiente` link of the node at position j. */
  lemma AdelanteEn<T>(nodos: map<nat, Nodo<T>>, nodes: seq<nat>, j: nat)
    requires Adelante(nodos, nodes) && j < |nodes|
    ensures SiguienteDe(nodos, nodes[j]) == Ref(nodes[Sucesor(j, |nodes|)])
  {
  }

  /** The `anterior` link of the node at position j. */
  lemma AtrasEn<T>(nodos: map<nat, Nodo<T>>, nodes: seq<nat>, j: nat)
    requires Atras(nodos, nodes) && j < |nodes|
    ensures AnteriorDe(nodos, nodes[j]) == Ref(nodes[Predecesor(j, |nodes|)])
  {
  }

  /** A listed id occurs among the listed positions. */
  lemma EnLista<T>(nodos: map<nat, Nodo<T>>, nodes: seq<nat>, libre: nat, id: nat)
    requires Vivos(nodos, nodes, libre) && id in nodes
    ensures id in nodos && nodos[id].persona in Personas(nodos, nodes)
  {
    var i :| 0 <= i < |nodes| && nodes[i] == id;
    assert Personas(nodos, nodes)[i] == nodos[id].persona;
  }

  // ---------------------------------------------------------------------
  // `agregar`: a fresh node goes in between the last node and the first
  // ---------------------------------------------------------------------

  /**
   * The arena after the statements of `agregar(x)` with the fresh id
   * `nuevo`: the new node's `siguiente` is the old cursor; on a non-empty
   * ring the cursor's `anterior` becomes the new node; the last node (the
   * new node itself on an empty ring) gets the new node as `siguiente`, and
   * the new node gets it as `anterior`.
   */
  function TrasAgregar<T>(nodos: map<nat, Nodo<T>>, actual: Ptr, enFila: Ptr, nuevo: nat, x: T): map<nat, Nodo<T>>
    requires actual.Ref? ==> actual.id in nodos
    requires actual.Ref? ==> enFila.Ref? && enFila.id in nodos
  {
    var n1 := nodos[nuevo := Nodo(x, actual, Null)];
    var f := if actual.Null? then Ref(nuevo) else enFila;
    var n2 := if actual.Null? then n1 else n1[actual.id := n1[actual.id].(anterior := Ref(nuevo))];
    var n3 := n2[f.id := n2[f.id].(siguiente := Ref(nuevo))];
    n3[nuevo := n3[nuevo].(anterior := f)]
  }

  lemma DistintosAgregar(nodes: seq<nat>, nuevo: nat)
    requires Distintos(nodes) && forall i :: 0 <= i < |nodes| ==> nodes[i] < nuevo
    ensures Distintos([nuevo] + nodes)
  {
    var m := [nuevo] + nodes;
    forall i, j | 0 <= i < j < |m| ensures m[i] != m[j] {
      assert m[j] == nodes[j - 1];
      if i > 0 {
        assert m[i] == nodes[i - 1];
      }
    }
  }

  /** One position of the cycle after `agregar` on a non-empty ring. */
  lemma AgregarEn<T>(nodos: map<nat, Nodo<T>>, nodes: seq<nat>, libre: nat, x: T, i: nat)
    requires Enlazado(nodos, nodes, libre) && |nodes| > 0 && i <= |nodes|
    ensures var N := TrasAgregar(nodos, Ref(nodes[0]), Ref(nodes[|nodes| - 1]), libre, x);
      var m := [libre] + nodes;
      && m[i] in N
      && SiguienteDe(N, m[i]) == Ref(m[Sucesor(i, |m|)])
      && AnteriorDe(N, m[i]) == Ref(m[Predecesor(i, |m|)])
      && N[m[i]].persona == (if i == 0 then x else nodos[nodes[i - 1]].persona)
  {
    var n := |nodes|;
    var m := [libre] + nodes;
    SinRepetidosSiiDistintos(nodes);
    assert nodes[0] < libre && nodes[n - 1] < libre;
    if i > 0 {
      assert m[i] == nodes[i - 1] && nodes[i - 1] < libre;
      AdelanteEn(nodos, nodes, i - 1);
      AtrasEn(nodos, nodes, i - 1);
      if i < n {
        assert nodes[i - 1] != nodes[n - 1];
        assert m[i + 1] == nodes[i];
      }
      if i > 1 {
        assert nodes[i - 1] != nodes[0];
        assert m[i - 1] == nodes[i - 2];
      }
    } else {
      assert m[1] == nodes[0] && m[n] == nodes[n - 1];
    }
  }

  /** `agregar` on a non-empty ring: the fresh node is the new first node of the cycle. */
  lemma EnlazadoAgregar<T>(nodos: map<nat, Nodo<T>>, nodes: seq<nat>, libre: nat, x: T)
    requires Enlazado(nodos, nodes, libre) && |nodes| > 0
    ensures var N := TrasAgregar(nodos, Ref(nodes[0]), Ref(nodes[|nodes| - 1]), libre, x);
      && Enlazado(N, [libre] + nodes, libre + 1)
      && Personas(N, [libre] + nodes) == [x] + Personas(nodos, nodes)
  {
    var N := TrasAgregar(nodos, Ref(nodes[0]), Ref(nodes[|nodes| - 1]), libre, x);
    var m := [libre] + nodes;
    SinRepetidosSiiDistintos(nodes);
    DistintosAgregar(nodes, libre);
    SinRepetidosSiiDistintos(m);
    forall i | 0 <= i < |m|
      ensures m[i] in N && m[i] < libre + 1
      ensures SiguienteDe(N, m[i]) == Ref(m[Sucesor(i, |m|)])
      ensures AnteriorDe(N, m[i]) == Ref(m[Predecesor(i, |m|)])
      ensures N[m[i]].persona == ([x] + Personas(nodos, nodes))[i]
    {
      AgregarEn(nodos, nodes, libre, x, i);
      if i > 0 {
        assert m[i] == nodes[i - 1];
      }
    }
  }

  /** `agregar` on an empty ring: the fresh node is linked to itself both ways. */
  lemma EnlazadoAgregarVacio<T>(nodos: map<nat, Nodo<T>>, libre: nat, x: T)
    ensures var N := TrasAgregar(nodos, Null, Null, libre, x);
      && Enlazado(N, [libre], libre + 1)
      && Personas(N, [libre]) == [x]
  {
  }

  // ---------------------------------------------------------------------
  // `siguiente` and `retroceder`: the same cycle read from another node
  // ---------------------------------------------------------------------

  /** Starting the cycle at its second node. */
  lemma EnlazadoRota<T>(nodos: map<nat, Nodo<T>>, nodes: seq<nat>, libre: nat)
    requires Enlazado(nodos, nodes, libre) && |nodes| > 0
    ensures SiguienteDe(nodos, nodes[0]) == Ref((nodes[1..] + [nodes[0]])[0])
    ensures Enlazado(nodos, nodes[1..] + [nodes[0]], libre)
    ensures Personas(nodos, nodes[1..] + [nodes[0]])
         == Personas(nodos, nodes)[1..] + [Personas(nodos, nodes)[0]]
  {
    var n := |nodes|;
    var m: seq<nat> := nodes[1..] + [nodes[0]];
    var P := Personas(nodos, nodes);
    AdelanteEn(nodos, nodes, 0);
    SinRepetidosSiiDistintos(nodes);
    forall i, j | 0 <= i < j < n ensures m[i] != m[j] {
      assert m[i] == nodes[Sucesor(i, n)] && m[j] == nodes[Sucesor(j, n)];
    }
    SinRepetidosSiiDistintos(m);
    forall i | 0 <= i < n
      ensures m[i] in nodos && m[i] < libre && nodos[m[i]].persona == (P[1..] + [P[0]])[i]
      ensures SiguienteDe(nodos, m[i]) == Ref(m[Sucesor(i, n)])
      ensures AnteriorDe(nodos, m[i]) == Ref(m[Predecesor(i, n)])
    {
      var j := Sucesor(i, n);
      assert m[i] == nodes[j];
      assert (P[1..] + [P[0]])[i] == P[j];
      assert m[Sucesor(i, n)] == nodes[Sucesor(j, n)];
      assert m[Predecesor(i, n)] == nodes[Sucesor(Predecesor(i, n), n)];
      AdelanteEn(nodos, nodes, j);
      AtrasEn(nodos, nodes, j);
    }
  }

  /** Starting the cycle at its last node. */
  lemma EnlazadoRetrocede<T>(nodos: map<nat, Nodo<T>>, nodes: seq<nat>, libre: nat)
    requires Enlazado(nodos, nodes, libre) && |nodes| > 0
    ensures var n := |nodes|; var m := [nodes[n - 1]] + nodes[..n - 1];
      && AnteriorDe(nodos, nodes[0]) == Ref(m[0])
      && AnteriorDe(nodos, m[0]) == Ref(m[n - 1])
      && Enlazado(nodos, m, libre)
      && Personas(nodos, m) == [Personas(nodos, nodes)[n - 1]] + Personas(nodos, nodes)[..n - 1]
  {
    var n := |nodes|;
    var m: seq<nat> := [nodes[n - 1]] + nodes[..n - 1];
    var P := Personas(nodos, nodes);
    AtrasEn(nodos, nodes, 0);
    AtrasEn(nodos, nodes, n - 1);
    assert m[n - 1] == nodes[Predecesor(n - 1, n)];
    SinRepetidosSiiDistintos(nodes);
    forall i, j | 0 <= i < j < n ensures m[i] != m[j] {
      assert m[i] == nodes[Predecesor(i, n)] && m[j] == nodes[Predecesor(j, n)];
    }
    SinRepetidosSiiDistintos(m);
    forall i | 0 <= i < n
      ensures m[i] in nodos && m[i] < libre && nodos[m[i]].persona == ([P[n - 1]] + P[..n - 1])[i]
      ensures SiguienteDe(nodos, m[i]) == Ref(m[Sucesor(i, n)])
      ensures AnteriorDe(nodos, m[i]) == Ref(m[Predecesor(i, n)])
    {
      var j := Predecesor(i, n);
      assert m[i] == nodes[j];
      assert ([P[n - 1]] + P[..n - 1])[i] == P[j];
      assert m[Sucesor(i, n)] == nodes[Predecesor(Sucesor(i, n), n)];
      assert m[Predecesor(i, n)] == nodes[Predecesor(j, n)];
      AdelanteEn(nodos, nodes, j);
      AtrasEn(nodos, nodes, j);
    }
  }

  // ---------------------------------------------------------------------
  // `eliminar`: the node at position k of a cycle of at least two is
  // unlinked (its predecessor and successor are linked to each other) and
  // freed
  // ---------------------------------------------------------------------

  /** The arena after unlinking `quitado` from between `pred` and `succ` and deleting it. */
  function TrasDesenlazar<T>(nodos: map<nat, Nodo<T>>, pred: nat, quitado: nat, succ: nat): map<nat, Nodo<T>>
    requires pred in nodos && succ in nodos
  {
    var n1 := nodos[pred := nodos[pred].(siguiente := Ref(succ))];
    var n2 := n1[succ := n1[succ].(anterior := Ref(pred))];
    n2 - {quitado}
  }

  /** What unlinking does to a node other than the removed one. */
  lemma EnlacesTrasDesenlazar<T>(nodos: map<nat, Nodo<T>>, pred: nat, quitado: nat, succ: nat, x: nat)
    requires pred in nodos && succ in nodos && x in nodos && x != quitado
    ensures var N := TrasDesenlazar(nodos, pred, quitado, succ);
      && x in N && N[x].persona == nodos[x].persona
      && SiguienteDe(N, x) == (if x == pred then Ref(succ) else SiguienteDe(nodos, x))
      && AnteriorDe(N, x) == (if x == succ then Ref(pred) else AnteriorDe(nodos, x))
  {
  }

  /** Position i of s without position k is position Salta(i, k) of s. */
  function Salta(i: nat, k: nat): nat {
    if i < k then i else i + 1
  }

  /** `m` lists `nodes` without position k. */
  ghost predicate SinPosicion(m: seq<nat>, nodes: seq<nat>, k: nat) {
    |m| == |nodes| - 1 && forall i :: 0 <= i < |m| ==> m[i] == nodes[Salta(i, k)]
  }

  lemma Quitado<T>(s: seq<T>, k: nat)
    requires k < |s|
    ensures |s[..k] + s[k + 1..]| == |s| - 1
    ensures forall i :: 0 <= i < |s| - 1 ==> (s[..k] + s[k + 1..])[i] == s[Salta(i, k)]
  {
  }

  /** An id other than the one at position k is still listed once position k is gone. */
  lemma EnRestantes(nodes: seq<nat>, k: nat, x: nat)
    requires k < |nodes| && x in nodes && x != nodes[k]
    ensures x in nodes[..k] + nodes[k + 1..]
  {
    var j :| 0 <= j < |nodes| && nodes[j] == x;
    Quitado(nodes, k);
    if j < k {
      assert (nodes[..k] + nodes[k + 1..])[j] == x;
    } else {
      assert (nodes[..k] + nodes[k + 1..])[j - 1] == x;
    }
  }

  lemma DistintosDesenlaza(nodes: seq<nat>, k: nat)
    requires Distintos(nodes) && k < |nodes|
    ensures Distintos(nodes[..k] + nodes[k + 1..])
  {
    var m := nodes[..k] + nodes[k + 1..];
    Quitado(nodes, k);
    forall i, j | 0 <= i < j < |m| ensures m[i] != m[j] {
      assert m[i] == nodes[Salta(i, k)] && m[j] == nodes[Salta(j, k)];
    }
  }

  /** Skipping position k keeps successors, except that k's predecessor is followed by k's successor. */
  lemma SaltaSucesor(i: nat, k: nat, n: nat)
    requires 2 <= n && k < n && i < n - 1
    ensures Salta(i, k) != k
    ensures Salta(i, k) == Predecesor(k, n) ==> Salta(Sucesor(i, n - 1), k) == Sucesor(k, n)
    ensures Salta(i, k) != Predecesor(k, n) ==> Salta(Sucesor(i, n - 1), k) == Sucesor(Salta(i, k), n)
  {
  }

  /** Skipping position k keeps predecessors, except that k's successor is preceded by k's predecessor. */
  lemma SaltaPredecesor(i: nat, k: nat, n: nat)
    requires 2 <= n && k < n && i < n - 1
    ensures Salta(i, k) != k
    ensures Salta(i, k) == Sucesor(k, n) ==> Salta(Predecesor(i, n - 1), k) == Predecesor(k, n)
    ensures Salta(i, k) != Sucesor(k, n) ==> Salta(Predecesor(i, n - 1), k) == Predecesor(Salta(i, k), n)
  {
  }

  /** Both links of the node at position i of the shortened cycle. */
  lemma DesenlazaEn<T>(nodos: map<nat, Nodo<T>>, nodes: seq<nat>, k: nat, i: nat)
    requires 2 <= |nodes| && k < |nodes| && i < |nodes| - 1
    requires var n := |nodes|; var oi := Salta(i, k);
      && oi != k
      && nodes[Predecesor(k, n)] in nodos && nodes[Sucesor(k, n)] in nodos && nodes[oi] in nodos
      && SiguienteDe(nodos, nodes[oi]) == Ref(nodes[Sucesor(oi, n)])
      && AnteriorDe(nodos, nodes[oi]) == Ref(nodes[Predecesor(oi, n)])
      && nodes[oi] != nodes[k]
      && (oi != Predecesor(k, n) ==> nodes[oi] != nodes[Predecesor(k, n)])
      && (oi != Sucesor(k, n) ==> nodes[oi] != nodes[Sucesor(k, n)])
    ensures var n := |nodes|; var oi := Salta(i, k);
      var N := TrasDesenlazar(nodos, nodes[Predecesor(k, n)], nodes[k], nodes[Sucesor(k, n)]);
      && nodes[oi] in N && N[nodes[oi]].persona == nodos[nodes[oi]].persona
      && SiguienteDe(N, nodes[oi]) == Ref(nodes[Salta(Sucesor(i, n - 1), k)])
      && AnteriorDe(N, nodes[oi]) == Ref(nodes[Salta(Predecesor(i, n - 1), k)])
  {
    var n := |nodes|;
    SaltaSucesor(i, k, n);
    SaltaPredecesor(i, k, n);
    EnlacesTrasDesenlazar(nodos, nodes[Predecesor(k, n)], nodes[k], nodes[Sucesor(k, n)], nodes[Salta(i, k)]);
  }

  /** The shortened cycle, for any `m` that lists `nodes` without position k. */
  lemma EnlazadoSinPosicion<T>(nodos: map<nat, Nodo<T>>, nodes: seq<nat>, libre: nat, k: nat, m: seq<nat>)
    requires Enlazado(nodos, nodes, libre) && Distintos(nodes) && 2 <= |nodes| && k < |nodes|
    requires SinPosicion(m, nodes, k) && Distintos(m)
    ensures var n := |nodes|;
      var N := TrasDesenlazar(nodos, nodes[Predecesor(k, n)], nodes[k], nodes[Sucesor(k, n)]);
      && Vivos(N, m, libre) && Adelante(N, m) && Atras(N, m)
      && forall i :: 0 <= i < |m| ==> N[m[i]].persona == nodos[nodes[Salta(i, k)]].persona
  {
    var n := |nodes|;
    var p, q := Predecesor(k, n), Sucesor(k, n);
    var N := TrasDesenlazar(nodos, nodes[p], nodes[k], nodes[q]);
    forall i | 0 <= i < n - 1
      ensures m[i] in N && m[i] < libre && N[m[i]].persona == nodos[nodes[Salta(i, k)]].persona
      ensures SiguienteDe(N, m[i]) == Ref(m[Sucesor(i, n - 1)])
      ensures AnteriorDe(N, m[i]) == Ref(m[Predecesor(i, n - 1)])
    {
      var oi := Salta(i, k);
      SaltaSucesor(i, k, n);
      assert m[i] == nodes[oi];
      assert m[Sucesor(i, n - 1)] == nodes[Salta(Sucesor(i, n - 1), k)];
      assert m[Predecesor(i, n - 1)] == nodes[Salta(Predecesor(i, n - 1), k)];
      assert nodes[oi] != nodes[k];
      assert oi != p ==> nodes[oi] != nodes[p];
      assert oi != q ==> nodes[oi] != nodes[q];
      AdelanteEn(nodos, nodes, oi);
      AtrasEn(nodos, nodes, oi);
      DesenlazaEn(nodos, nodes, k, i);
    }
  }

  /** `eliminar` of the node at position k: the rest stays one cycle, in order. */
  lemma EnlazadoDesenlaza<T>(nodos: map<nat, Nodo<T>>, nodes: seq<nat>, libre: nat, k: nat)
    requires Enlazado(nodos, nodes, libre) && 2 <= |nodes| && k < |nodes|
    ensures var n := |nodes|;
      var N := TrasDesenlazar(nodos, nodes[Predecesor(k, n)], nodes[k], nodes[Sucesor(k, n)]);
      && Enlazado(N, nodes[..k] + nodes[k + 1..], libre)
      && Personas(N, nodes[..k] + nodes[k + 1..])
         == Personas(nodos, nodes)[..k] + Personas(nodos, nodes)[k + 1..]
  {
    var m := nodes[..k] + nodes[k + 1..];
    var P := Personas(nodos, nodes);
    Quitado(nodes, k);
    Quitado(P, k);
    SinRepetidosSiiDistintos(nodes);
    DistintosDesenlaza(nodes, k);
    SinRepetidosSiiDistintos(m);
    EnlazadoSinPosicion(nodos, nodes, libre, k, m);
  }
}
