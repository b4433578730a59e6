/**
 * The statements of anillo.h as written, on a plain value of the object's
 * fields. Where such a statement reads through NULL or through a node
 * that was already deleted (undefined behaviour in C++), the result is
 * `None`. The lemmas at the end exhibit, on concrete rings of `int`, each
 * place where this behaviour departs from the one the header documents,
 * which is what class Anillo.Anillo implements.
 */
module ComoEscrito {
  import RingSpec
  import opened Enlaces
  import opened Estado

  type Option<T> = RingSpec.Option<T>

  /** The fields of an `Anillo<T>` and the node heap. */
  datatype Campos<T> = Campos(nodos: map<nat, Nodo<T>>, libre: nat, actual: Ptr, ultimo: Ptr, enFila: Ptr, tam: int)

  /** `Anillo()`. */
  function Nuevo<T>(): Campos<T> {
    Campos(map[], 0, Null, Null, Null, 0)
  }

  /** `*p`, undefined for NULL and for a deleted node. */
  function Leer<T>(nodos: map<nat, Nodo<T>>, p: Ptr): Option<Nodo<T>> {
    if p.Ref? && p.id in nodos then RingSpec.Some(nodos[p.id]) else RingSpec.None
  }

  /** `agregar(x)` (anillo.h:201-219); `new Nodo()` zero-initialises both links. */
  function Agregar<T>(e: Campos<T>, x: T): Option<Campos<T>> {
    var nuevo := e.libre;
    var n1 := e.nodos[nuevo := Nodo(x, e.actual, Null)];
    var enFila := if e.tam == 0 then Ref(nuevo) else e.enFila;
    if e.tam != 0 && Leer(n1, e.actual).None? then RingSpec.None
    else
      var n2 := if e.tam == 0 then n1 else n1[e.actual.id := n1[e.actual.id].(anterior := Ref(nuevo))];
      if Leer(n2, enFila).None? then RingSpec.None
      else
        var n3 := n2[enFila.id := n2[enFila.id].(siguiente := Ref(nuevo))];
        var n4 := n3[nuevo := n3[nuevo].(anterior := enFila)];
        RingSpec.Some(Campos(n4, e.libre + 1, Ref(nuevo), e.ultimo, enFila, e.tam + 1))
  }

  /** `siguiente()` (anillo.h:192-199): the new state and the value returned. */
  function Siguiente<T>(e: Campos<T>): Option<(Campos<T>, T)> {
    match Leer(e.nodos, e.actual)
    case None => RingSpec.None
    case Some(nodo) =>
      RingSpec.Some((e.(ultimo := e.actual, enFila := e.actual, actual := nodo.siguiente), nodo.persona))
  }

  /** `retroceder()` (anillo.h:269-274): `_ultimoEnLaFila` takes the value of `_ultimo`. */
  function Retroceder<T>(e: Campos<T>): Option<Campos<T>> {
    match Leer(e.nodos, e.actual)
    case None => RingSpec.None
    case Some(nodo) => RingSpec.Some(e.(actual := nodo.anterior, enFila := e.ultimo))
  }

  /** `anterior()` (anillo.h:264-267). */
  function Anterior<T>(e: Campos<T>): Option<T> {
    match Leer(e.nodos, e.ultimo)
    case None => RingSpec.None
    case Some(nodo) => RingSpec.Some(nodo.persona)
  }

  /**
   * `eliminar(p)` (anillo.h:222-257). With one node, that node is deleted
   * whatever it holds and `_ultimo` is left as it was.
   */
  function Eliminar<T(==)>(e: Campos<T>, p: T): Option<Campos<T>> {
    if e.tam == 1 then
      RingSpec.Some(e.(nodos := if e.actual.Ref? then e.nodos - {e.actual.id} else e.nodos,
                       actual := Null, enFila := Null, tam := 0))
    else
      match Leer(e.nodos, e.actual)
      case None => RingSpec.None
      case Some(nodo) =>
        if nodo.persona == p then EliminarActual(e, p, e.actual.id, nodo) else Recorrer(e, p, e.actual, e.tam)
  }

  /** The branch of `eliminar(p)` for p at the cursor (anillo.h:232-238). */
  function EliminarActual<T(==)>(e: Campos<T>, p: T, cursor: nat, nodo: Nodo<T>): Option<Campos<T>> {
    var actual := nodo.siguiente;
    match Leer(e.nodos, e.enFila)
    case None => RingSpec.None
    case Some(fila) =>
      var n1 := e.nodos[e.enFila.id := fila.(siguiente := actual)];
      match SinAnteriorSiEs(n1, e.ultimo, p)
      case None => RingSpec.None
      case Some(ultimo) =>
        RingSpec.Some(Campos(n1 - {cursor}, e.libre, actual, ultimo, e.enFila, e.tam - 1))
  }

  /** `if (huboAnterior() && *_ultimo->persona == p) _ultimo = NULL;` */
  function SinAnteriorSiEs<T(==)>(nodos: map<nat, Nodo<T>>, ultimo: Ptr, p: T): Option<Ptr> {
    if ultimo.Null? then RingSpec.Some(Null)
    else
      match Leer(nodos, ultimo)
      case None => RingSpec.None
      case Some(nodo) => RingSpec.Some(if nodo.persona == p then Null else ultimo)
  }

  /** The walk of `eliminar(p)` (anillo.h:240-253), `restan` rounds left. */
  function Recorrer<T(==)>(e: Campos<T>, p: T, anterior: Ptr, restan: int): Option<Campos<T>>
    decreases if restan < 0 then 0 else restan
  {
    if restan <= 0 then RingSpec.Some(e)
    else
      match Leer(e.nodos, anterior)
      case None => RingSpec.None
      case Some(ant) =>
        var actual := ant.siguiente;
        match Leer(e.nodos, actual)
        case None => RingSpec.None
        case Some(act) =>
          if act.persona != p then Recorrer(e, p, actual, restan - 1)
          else
            var n1 := e.nodos[anterior.id := ant.(siguiente := act.siguiente)];
            match Leer(n1, act.siguiente)
            case None => RingSpec.None
            case Some(sig) =>
              var n2 := n1[act.siguiente.id := sig.(anterior := anterior)];
              match SinAnteriorSiEs(n2, e.ultimo, p)
              case None => RingSpec.None
              case Some(ultimo) =>
                match Leer(n2, e.enFila)
                case None => RingSpec.None
                case Some(fila) =>
                  var enFila := if fila.persona == p then Null else e.enFila;
                  RingSpec.Some(e.(nodos := n2 - {actual.id}, ultimo := ultimo, enFila := enFila, tam := e.tam - 1))
  }

  /** `operator==(otro)` (anillo.h:299-313). */
  function Iguales<T(==)>(a: Campos<T>, b: Campos<T>): Option<bool> {
    if b.tam != a.tam then RingSpec.Some(false) else Comparar(a, b, a.actual, b.actual, a.tam)
  }

  /** The loop of `operator==` and the comparison of the anteriors after it. */
  function Comparar<T(==)>(a: Campos<T>, b: Campos<T>, pa: Ptr, pb: Ptr, restan: int): Option<bool>
    decreases if restan < 0 then 0 else restan
  {
    if restan <= 0 then
      match (Leer(a.nodos, a.ultimo), Leer(b.nodos, b.ultimo))
      case (Some(ua), Some(ub)) => RingSpec.Some(ua.persona == ub.persona)
      case _ => RingSpec.None
    else
      match (Leer(a.nodos, pa), Leer(b.nodos, pb))
      case (Some(na), Some(nb)) =>
        if na.persona != nb.persona then RingSpec.Some(false)
        else Comparar(a, b, na.siguiente, nb.siguiente, restan - 1)
      case _ => RingSpec.None
  }

  /** The values met following `siguiente` for `tam` nodes from the cursor, as `mostrarAnillo` lists them. */
  function Listado<T>(e: Campos<T>): Option<seq<T>> {
    Listar(e.nodos, e.actual, e.tam)
  }

  function Listar<T>(nodos: map<nat, Nodo<T>>, p: Ptr, restan: int): Option<seq<T>>
    decreases if restan < 0 then 0 else restan
  {
    if restan <= 0 then RingSpec.Some([])
    else
      match Leer(nodos, p)
      case None => RingSpec.None
      case Some(nodo) =>
        match Listar(nodos, nodo.siguiente, restan - 1)
        case None => RingSpec.None
        case Some(resto) => RingSpec.Some([nodo.persona] + resto)
  }

  /**
   * On a well-formed ring the statements of `agregar` do what the header
   * says: they produce the arena of Enlaces.TrasAgregar, which
   * Anillo.Anillo.Agregar produces and Enlaces.EnlazadoAgregar proves to
   * be the ring with x in front.
   */
  lemma AgregarComoElModelo<T>(e: Campos<T>, nodes: seq<nat>, x: T)
    requires Invariante(e.nodos, nodes, e.libre, e.actual, e.ultimo, e.enFila, e.tam)
    ensures Agregar(e, x) == RingSpec.Some(Campos(TrasAgregar(e.nodos, e.actual, e.enFila, e.libre, x),
                                                  e.libre + 1, Ref(e.libre), e.ultimo,
                                                  if e.tam == 0 then Ref(e.libre) else e.enFila, e.tam + 1))
  {
    assert Agregar(e, x).value.nodos == TrasAgregar(e.nodos, e.actual, e.enFila, e.libre, x);
  }

  /** On a non-empty well-formed ring the statements of `siguiente` are those of Anillo.Anillo.Siguiente. */
  lemma SiguienteComoElModelo<T>(e: Campos<T>, nodes: seq<nat>)
    requires Invariante(e.nodos, nodes, e.libre, e.actual, e.ultimo, e.enFila, e.tam) && e.tam > 0
    ensures Siguiente(e) == RingSpec.Some((e.(ultimo := e.actual, enFila := e.actual,
                                             actual := SiguienteDe(e.nodos, e.actual.id)),
                                           Personas(e.nodos, nodes)[0]))
  {
  }

  // ---------------------------------------------------------------------
  // Where the code departs from the header, on concrete rings
  // ---------------------------------------------------------------------

  /** [x]: node 0 holds x and is linked to itself. */
  function Unitario(x: int): Campos<int> {
    Campos(map[0 := Nodo(x, Ref(0), Ref(0))], 1, Ref(0), Null, Ref(0), 1)
  }

  /** [20, 10]: nodes 0 and 1 hold 10 and 20; the cursor is node 1. */
  function DosValores(): Campos<int> {
    Campos(map[0 := Nodo(10, Ref(1), Ref(1)), 1 := Nodo(20, Ref(0), Ref(0))], 2, Ref(1), Null, Ref(0), 2)
  }

  /** [30, 20, 10]: nodes 0, 1, 2 hold 10, 20, 30; the cursor is node 2. */
  function TresValores(): Campos<int> {
    Campos(map[0 := Nodo(10, Ref(2), Ref(1)), 1 := Nodo(20, Ref(0), Ref(2)), 2 := Nodo(30, Ref(1), Ref(0))],
           3, Ref(2), Null, Ref(0), 3)
  }

  /** The rings above are what `agregar` builds from an empty ring. */
  lemma Construidos()
    ensures Agregar(Nuevo<int>(), 42) == RingSpec.Some(Unitario(42))
    ensures Agregar(Nuevo<int>(), 10) == RingSpec.Some(Unitario(10))
    ensures Agregar(Unitario(10), 20) == RingSpec.Some(DosValores())
    ensures Agregar(DosValores(), 30) == RingSpec.Some(TresValores())
    ensures Listado(DosValores()).Some? && Listado(DosValores()).value == [20, 10]
    ensures Listado(TresValores()).Some? && Listado(TresValores()).value == [30, 20, 10]
  {
    assert Agregar(Nuevo<int>(), 42).value.nodos == Unitario(42).nodos;
    assert Agregar(Nuevo<int>(), 10).value.nodos == Unitario(10).nodos;
    assert Agregar(Unitario(10), 20).value.nodos == DosValores().nodos;
    assert Agregar(DosValores(), 30).value.nodos == TresValores().nodos;
  }

  /**
   * `eliminar(7)` on [42] deletes the 42: anillo.h:224-228 does not look
   * at the value. After `siguiente`, `eliminar(42)` leaves `_ultimo` on
   * the deleted node, so `huboAnterior()` holds and `anterior()` reads
   * freed memory.
   */
  lemma UnitarioIgnoraElValor()
    ensures Eliminar(Unitario(42), 7).Some? && Eliminar(Unitario(42), 7).value.tam == 0
    ensures RingSpec.Eliminar(RingSpec.Ring([42], RingSpec.None), 7).elems == [42]
    ensures var e := Eliminar(Siguiente(Unitario(42)).value.0, 42);
      && e.Some? && e.value.ultimo == Ref(0) && Anterior(e.value).None?
  {
  }

  /**
   * After `eliminar(30)` on [30, 20, 10], node 1 (the new cursor) still
   * has the deleted node 2 as its `anterior`: anillo.h:233-236 never
   * relinks it. `retroceder` moves onto the deleted node and the next
   * `siguiente` reads it.
   */
  lemma EliminarActualDejaEnlaceSuelto()
    ensures var e := Eliminar(TresValores(), 30);
      && e.Some? && Listado(e.value).Some? && Listado(e.value).value == [20, 10]
      && AnteriorDe(e.value.nodos, 1) == Ref(2) && 2 !in e.value.nodos
      && Retroceder(e.value).Some? && Siguiente(Retroceder(e.value).value).None?
  {
  }

  /**
   * `eliminar(10)` on [30, 20, 10] removes the last node, and anillo.h:246
   * sets `_ultimoEnLaFila` to NULL, so the next `agregar` writes through
   * NULL.
   */
  lemma EliminarUltimoAnulaLaFila()
    ensures var e := Eliminar(TresValores(), 10);
      && e.Some? && Listado(e.value).Some? && Listado(e.value).value == [30, 20]
      && e.value.enFila == Null
      && Agregar(e.value, 40).None?
  {
  }

  /**
   * anillo.h:273 makes `_ultimoEnLaFila` the anterior instead of the new
   * cursor's predecessor. On [20, 10] without an anterior it becomes NULL
   * and `agregar(30)` writes through it. On [20, 10, 30*] (after one
   * `siguiente` on [30, 20, 10]) `retroceder` and then `agregar(40)`
   * splice 40 next to 30 alone, and the ring reads [40, 30, 40, 30].
   */
  lemma RetrocederPierdeLaFila()
    ensures var e := Retroceder(DosValores());
      && e.Some? && e.value.enFila == Null && Agregar(e.value, 30).None?
    ensures var e := Retroceder(Siguiente(TresValores()).value.0);
      && e.Some? && Listado(e.value).Some? && Listado(e.value).value == [30, 20, 10]
      && Agregar(e.value, 40).Some?
      && Listado(Agregar(e.value, 40).value).Some?
      && Listado(Agregar(e.value, 40).value).value == [40, 30, 40, 30]
  {
  }

  /** `operator==` reads `*_ultimo->persona` (anillo.h:311) even when neither ring has an anterior. */
  lemma IgualesSinAnteriorIndefinido()
    ensures Iguales(Nuevo<int>(), Nuevo<int>()).None?
    ensures Iguales(Unitario(1), Unitario(1)).None?
  {
  }

  /** `eliminar` on an empty ring reads through the NULL cursor (anillo.h:232). */
  lemma EliminarEnVacioIndefinido()
    ensures Eliminar(Nuevo<int>(), 5).None?
  {
  }
}
