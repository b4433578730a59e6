# Anillo: a ring of values, verified

`Anillo<T>` (anillo.h) is a ring of values. It is kept as a circular
doubly-linked list of heap nodes (`struct Nodo`: the value `persona` and
the links `siguiente` and `anterior`). It has four fields:

- `_actual` is the node that `siguiente()` returns next;
- `_ultimoEnLaFila` is the node just before it, where `agregar` splices;
- `_ultimo` is the node that `siguiente()` returned last (the "anterior"), or NULL;
- `_tam` is the size.

The value at `_actual` is the next one `siguiente()` returns, and that
value becomes the anterior. `agregar(x)` puts x in front, so it comes out
next. `eliminar(p)` removes the first p from the cursor on. `retroceder()`
steps the cursor back and keeps the anterior. `mostrarAnillo` writes
`[e1, e2*, ...]`, with `*` after each value equal to the anterior.
`operator==` compares sizes, the values in order, and the anteriors.

The project has six modules:

- `RingSpec` (ring_spec.dfy): the value-level ring. `Ring(elems, prev)`
  holds the values from the cursor on and the anterior. It has one
  function per operation and the lemmas about them: rotation, cycling,
  undo, what removal takes away, the `*` marks, and equality.
- `Enlaces` (enlaces.dfy): the nodes. The C++ heap is an arena
  `map<nat, Nodo<T>>`; `new` takes the next unused id and `delete` drops
  the id. The predicate `Enlazado` says a list of ids is one closed
  doubly-linked cycle. One lemma per operation shows that its rewiring
  keeps the cycle and lists the right values.
- `Estado` (estado.dfy): the class's fields as values. It holds the
  invariant `Invariante`, the abstraction `Vista` onto `RingSpec.Ring`,
  and the removal lemma `QuitarEn`.
- `Anillo` (anillo.dfy): `class Anillo<T>` has the source's fields and
  one method per member function. The methods follow the source's
  statements and loops. Each is proved to keep `Valid()`, and to leave
  `Abs()` equal to the RingSpec function of the old ring.
- `ComoEscrito` (como_escrito.dfy): the same statements exactly as
  anillo.h writes them. `None` stands for undefined behaviour (reading
  through NULL or through a freed node). Its concrete lemmas exhibit
  each finding below.
- `Escenarios` (escenarios.dfy): the cases of tests.cpp, written as
  methods on the class. Each method's postcondition is what the test
  expects. Further methods give the evidently intended results on the
  inputs of the findings.

Where the code and its header disagree, the class follows the header
(the intended behaviour), and module ComoEscrito keeps the code as
written. The findings below list every such place.

Some details follow the code and not a plain reading of the design:

- The copy constructor restores the anterior through `setearUltimo`
  (anillo.h:141-150). That loop visits every node and keeps overwriting
  `_ultimo`, so it ends on the LAST node from the cursor on that holds
  the value, not the first. The model does the same.
- In `mostrarAnillo`, line 286 (`actual->siguiente;`) has no effect. The
  loop that follows does all the advancing, and the model has no
  counterpart for that line.
- Removing an absent value changes nothing. That includes the anterior
  and the cursor.

## Model

| member | source | states |
|---|---|---|
| Anillo.Anillo.constructor | anillo.h:132-138 | a new ring is valid, empty and has no anterior |
| Anillo.Anillo.Copia | anillo.h:153-167 | the copy is valid and has the same values, in the same order, and the same anterior as the original |
| Anillo.Anillo.SetearUltimo | anillo.h:140-151 | the values stay the same; with `sacoBasura` set and `valor` present, the anterior becomes `valor`, held by the last node from the cursor on that holds it; otherwise the anterior is unchanged |
| Anillo.Anillo.EsVacio | anillo.h:181-184 | true exactly when the ring holds no value |
| Anillo.Anillo.Tamanio | anillo.h:186-189 | the number of values in the ring |
| Anillo.Anillo.HuboAnterior | anillo.h:259-262 | true exactly when the ring remembers an anterior |
| Anillo.Anillo.Anterior | anillo.h:264-267 | the remembered anterior, which is a value still in the ring |
| Anillo.Anillo.Siguiente | anillo.h:192-199 | returns the cursor's value; that value becomes the anterior and the cursor moves to the next value; the node arena is untouched |
| Anillo.Anillo.Agregar | anillo.h:201-219 | x is placed in front of the cursor and becomes the next value; the anterior is kept; the new node takes the next free id |
| Anillo.Anillo.Retroceder | anillo.h:269-274 | the cursor steps back to the last value; the anterior and the nodes are unchanged |
| Anillo.Anillo.Eliminar | anillo.h:222-257 | the ring becomes RingSpec.Eliminar of the old one: the first p from the cursor on is removed, an anterior equal to p is forgotten, and nothing changes when p is absent |
| Anillo.Anillo.EliminarActual | anillo.h:232-238 | p at the cursor: that node is unlinked and freed, and the result is RingSpec.Eliminar of the old ring |
| Anillo.Anillo.Buscar | anillo.h:240-253 | the walk finds p exactly when p is in the ring; it then stops at the first p after the cursor, with the node before it |
| Anillo.Anillo.EliminarTras | anillo.h:241-249 | the node the walk found is unlinked and freed, and the result is RingSpec.Eliminar of the old ring |
| Anillo.Anillo.Escribir | anillo.h:290-293 | one value as written, followed by `*` exactly when it equals the anterior |
| Anillo.Anillo.MostrarAnillo | anillo.h:276-297 | the text is RingSpec.Mostrar of the ring: `[`, the values from the cursor on separated by `, ` and each marked as above, then `]` |
| Anillo.Anillo.Iguales | anillo.h:299-313 | true exactly when both rings have the same size, the same values in order from their cursors, and the same anterior, that is, exactly when the abstract rings are equal |
| Estado.QuitarEn | anillo.h:222-257 | unlinking the first p, at position k, from a valid ring of two or more leaves a valid ring that is RingSpec.Eliminar of the old one; the new cursor is the successor when k is the cursor; `_ultimoEnLaFila` is that node exactly when k is last |
| Enlaces.EnlazadoAgregar | anillo.h:201-219 | on a non-empty cycle, agregar's rewiring gives a cycle one longer, with the new node first and the values [x] + old |
| Enlaces.EnlazadoAgregarVacio | anillo.h:207-215 | on an empty ring, agregar's rewiring gives a single node linked to itself in both directions |
| Enlaces.EnlazadoRota | anillo.h:192-199 | following `siguiente` from the cursor reaches the second node; the same nodes listed from there are again a cycle, holding the values rotated by one |
| Enlaces.EnlazadoRetrocede | anillo.h:269-274 | following `anterior` from the cursor reaches the last node; listing from there is again a cycle, holding the last value followed by the others |
| Enlaces.EnlazadoDesenlaza | anillo.h:243-247 | unlinking position k of a cycle of two or more gives a cycle without position k, holding the values without position k |
| RingSpec.VacioEsVacio | anillo.h:132-138 | the new ring has no values and no anterior |
| RingSpec.AgregarLuegoSiguiente | anillo.h:57-61 | after agregar(x), the next siguiente returns x; the old values follow x in their order; x becomes the anterior |
| RingSpec.AvanzarNRota | anillo.h:46-55 | k calls of siguiente, for k up to the size, return the first k values in order and leave the ring rotated by k, with the last value returned as the anterior |
| RingSpec.SiguienteCicla | anillo.h:46-55 | after as many siguiente calls as there are values, each value has come out once in ring order, and the ring is back where it started |
| RingSpec.RetrocederDeshaceSiguiente | anillo.h:79-83 | retroceder right after siguiente restores the cursor and keeps the new anterior |
| RingSpec.SiguienteDeshaceRetroceder | anillo.h:79-83 | siguiente right after retroceder returns the last value and leaves the values as they were |
| RingSpec.QuitarPrimeroMultiset | anillo.h:240-253 | removing p takes exactly one p away when p occurs, and changes nothing otherwise |
| RingSpec.EliminarPresente | anillo.h:63-66 | with p present, eliminar removes exactly the first p (one value fewer, the others in order), and the ring loses its anterior exactly when the anterior was p |
| RingSpec.EliminarEn | anillo.h:240-253 | if position k holds the first p, eliminar splices out position k |
| RingSpec.EliminarAusente | anillo.h:240-253 | with p absent, eliminar leaves the ring as it was |
| RingSpec.OperacionesConservanWellFormed | anillo.h:68-72 | every operation keeps the anterior, when there is one, a value still in the ring |
| RingSpec.IgualesEsIgualdad | anillo.h:31-34 | operator== holds exactly when the two abstract rings are equal |
| RingSpec.LastIndexPrefijo | anillo.h:144-150 | extending a prefix by one value: the value is there if it just appeared or was there before, and the last occurrence moves to the new position exactly when the new value matches |
| RingSpec.MarcasDeMostrar | anillo.h:85-92 | if no rendered value contains `*`, the text has one `*` for each value equal to the anterior, and none when there is no anterior |
| ComoEscrito.AgregarComoElModelo | anillo.h:201-219 | on a valid ring, agregar as written gives exactly the arena and fields of Anillo.Anillo.Agregar |
| ComoEscrito.SiguienteComoElModelo | anillo.h:192-199 | on a non-empty valid ring, siguiente as written gives exactly the fields and value of Anillo.Anillo.Siguiente |
| ComoEscrito.Construidos | anillo.h:201-219 | agregar as written builds the concrete rings [42], [10], [20, 10] and [30, 20, 10] used below |
| ComoEscrito.UnitarioIgnoraElValor | anillo.h:224-228 | as written, eliminar(7) on [42] empties the ring, which the value-level eliminar would leave as it was; eliminar(42) after siguiente keeps `_ultimo` on the freed node |
| ComoEscrito.EliminarActualDejaEnlaceSuelto | anillo.h:233-236 | as written, after eliminar(30) on [30, 20, 10], the new cursor's `anterior` is the freed node, so retroceder then siguiente reads freed memory |
| ComoEscrito.EliminarUltimoAnulaLaFila | anillo.h:246 | as written, eliminar(10) on [30, 20, 10] leaves `_ultimoEnLaFila` NULL, and the next agregar writes through NULL |
| ComoEscrito.RetrocederPierdeLaFila | anillo.h:273 | as written, retroceder on [20, 10] without an anterior makes the next agregar write through NULL; on [20, 10, 30*], retroceder then agregar(40) lists [40, 30, 40, 30] |
| ComoEscrito.IgualesSinAnteriorIndefinido | anillo.h:311 | as written, operator== on two rings without an anterior reads through NULL |
| ComoEscrito.EliminarEnVacioIndefinido | anillo.h:232 | as written, eliminar on an empty ring reads through NULL |
| Escenarios.AnilloNuevoEsVacio | tests.cpp:37-42 | a new ring is empty and has size 0 |
| Escenarios.AnilloUnitarioDaSiguiente | tests.cpp:44-51 | after agregar(42): not empty, size 1, siguiente gives 42 |
| Escenarios.MostrarAnilloVacio | tests.cpp:53-57 | a new ring is written as `[]` |
| Escenarios.AnilloUnitarioCicla | tests.cpp:64-72 | siguiente on [42] gives 42 four times |
| Escenarios.UltimoEnAgregarEsElSiguiente | tests.cpp:74-81 | the value added last is the next one siguiente returns |
| Escenarios.AnilloConDosCicla | tests.cpp:83-92 | siguiente on [20, 42] gives 20, 42, 20, 42 |
| Escenarios.AnilloSacaNoSiguiente | tests.cpp:94-102 | after eliminar(42) on [20, 42], siguiente gives 20 and the size is 1 |
| Escenarios.MostrarAnillo | tests.cpp:104-116 | the texts `[]`, `[42]`, `[2, 42]`, `[42, 2*]`, `[2, 42*]` |
| Escenarios.AnillosClonadoPreservaAnterior | tests.cpp:118-128 | the original and the copy are both written `[42, 20*]` |
| Escenarios.PuedeEliminarAnterior | tests.cpp:130-142 | `[20, 10, 30*]` with an anterior; after eliminar(30), `[20, 10]` and no anterior |
| Escenarios.RetrocederUnaVezRepite | tests.cpp:144-156 | `[20, 10, 30*]`, then `[30*, 20, 10]`, then `[10, 30*, 20]` |
| Escenarios.UnitarioRespetaElValor | anillo.h:224-228 | eliminar(7) on [42] keeps the size 1; eliminar(42) after siguiente empties the ring and forgets the anterior |
| Escenarios.EliminarActualYRetroceder | anillo.h:233-236 | after eliminar(30) on [30, 20, 10], retroceder then siguiente gives 10 |
| Escenarios.EliminarUltimoYAgregar | anillo.h:246 | after eliminar(10) on [30, 20, 10], agregar(40) gives `[40, 30, 20]` |
| Escenarios.RetrocederSinAnteriorYAgregar | anillo.h:273 | retroceder on [20, 10], then agregar(30), gives `[30, 10, 20]` |
| Escenarios.RetrocederConAnteriorYAgregar | anillo.h:273 | retroceder on [20, 10, 30*], then agregar(40), gives `[40, 30*, 20, 10]` |
| Escenarios.IgualesSinAnterior | anillo.h:311 | two new rings are equal, and so are two rings [1] |
| Escenarios.EliminarEnVacio | anillo.h:232 | eliminar on a new ring leaves it empty |

## Left out

- Output streams: `mostrarAnillo` and `operator<<` (anillo.h:126-129 and 276-297) write to an `ostream`. The model returns the text; `show` stands for `operator<<` of T. The function never reaches `return os` (anillo.h:297): it falls off the end, so the stream it returns is undefined. The model does not reproduce that.
- Memory: the destructor (anillo.h:169-179) and `~Nodo` (anillo.h:112-115) only free memory, so they are left out. Freed nodes are ids removed from the arena, and ids are never reused. Copies of T made by `new T(otro)` are values.
- `operator=` (anillo.h:95-99) is private and only asserts false, so it is left out.
- The test `AnilloDeAnillo` (tests.cpp:158-162) nests rings. It needs T to be a class type with deep copies, which is outside the value model. The empty test at tests.cpp:59-61 has nothing to model.
- `int` overflow of `_tam` is not modelled: sizes are unbounded integers.
- Anillo.Anillo.Iguales: `!=` on T (anillo.h:306, 311) is taken to be the negation of `operator==`, the only comparison the header lets the code assume of T (anillo.h:8-10).
- Anillo.Anillo.Buscar and Anillo.Anillo.EliminarTras split the `while` loop of `eliminar` (anillo.h:240-253) into a search and a removal. The statements and their order are kept.
- Anillo.Anillo.SetearUltimo writes `_ultimo` once, after the loop, from a local that the loop updates. The source writes the field inside the loop. The final state is the same.
- Anillo.Anillo.Siguiente, Anillo.Anillo.Retroceder and Anillo.Anillo.Anterior require what the source requires: a non-empty ring (the PRE at anillo.h:53; `retroceder` reads the cursor at anillo.h:271), and an anterior for `anterior()` (anillo.h:266). The source checks neither and reads through NULL when they fail, so the model has no error result for these calls.
- Anillo.Anillo.Copia: the anterior is restored by value, in the last node that holds it. The abstract ring cannot tell that node apart from the original one.
- The arena ids and the ghost list of ids (`nodes`) stand for pointer identity. Aliasing between two rings cannot happen in the source: each ring owns its nodes.

## Findings

| source | as written | input that shows it | evidently intended | confidence | as-written member | corrected member |
|---|---|---|---|---|---|---|
| anillo.h:224-228 | with one node, `eliminar(p)` deletes it whatever p is, and keeps `_ultimo` on it | `agregar(42); eliminar(7)` empties the ring; `agregar(42); siguiente(); eliminar(42)` leaves `huboAnterior()` true on a freed node | remove the node only when it holds p, and forget the anterior | not executed | ComoEscrito.UnitarioIgnoraElValor | Anillo.Anillo.Eliminar |
| anillo.h:233-236 | removing the cursor node never relinks the new cursor's `anterior`; line 236 has no effect | `agregar(10); agregar(20); agregar(30); eliminar(30); retroceder(); siguiente()` reads a freed node | set the new cursor's `anterior` to `_ultimoEnLaFila` | not executed | ComoEscrito.EliminarActualDejaEnlaceSuelto | Anillo.Anillo.EliminarActual |
| anillo.h:246 | removing the last node sets `_ultimoEnLaFila` to NULL; the test compares values, not nodes | `agregar(10); agregar(20); agregar(30); eliminar(10); agregar(40)` writes through NULL | `_ultimoEnLaFila` becomes the removed node's predecessor | not executed | ComoEscrito.EliminarUltimoAnulaLaFila | Anillo.Anillo.EliminarTras |
| anillo.h:273 | `retroceder` sets `_ultimoEnLaFila = _ultimo` | `agregar(10); agregar(20); retroceder(); agregar(30)` writes through NULL; `agregar(10); agregar(20); agregar(30); siguiente(); retroceder(); agregar(40)` lists [40, 30, 40, 30] | `_ultimoEnLaFila` becomes the new cursor's predecessor | not executed | ComoEscrito.RetrocederPierdeLaFila | Anillo.Anillo.Retroceder |
| anillo.h:311 | `operator==` reads `*_ultimo->persona` on both rings | two new rings, or two rings [1] without `siguiente` | absent anteriors are equal to each other and differ from present ones | not executed | ComoEscrito.IgualesSinAnteriorIndefinido | Anillo.Anillo.Iguales |
| anillo.h:232 | `eliminar` on an empty ring reads `*_actual->persona` with `_actual` NULL | `eliminar(5)` on a new ring | nothing to remove, so nothing changes | not executed | ComoEscrito.EliminarEnVacioIndefinido | Anillo.Anillo.Eliminar |
