/**
 * The cases of tests.cpp, stated on class Anillo.Anillo: each method
 * builds the rings the test builds and returns what the test checks, and
 * its postcondition is the value the test expects. The last methods do
 * the same for the inputs on which anillo.h departs from its header (see
 * module ComoEscrito).
 */
module Escenarios {
  import opened RingSpec
  import opened Anillo

  /** `operator<<` on the values the tests use. */
  lemma Numeros()
    ensures IntToString(2) == "2" && IntToString(10) == "10" && IntToString(20) == "20"
    ensures IntToString(30) == "30" && IntToString(40) == "40" && IntToString(42) == "42"
  {
    assert NatToString(1) == "1";
    assert NatToString(2) == "2";
    assert NatToString(3) == "3";
    assert NatToString(4) == "4";
  }

  lemma CeldasDeDos<T>(a: T, b: T, prev: Option<T>, show: T -> string)
    ensures Celdas([a, b], prev, show) == Celda(a, prev, show) + ", " + Celda(b, prev, show)
  {
    assert [a, b][..1] == [a];
  }

  lemma CeldasDeTres<T>(a: T, b: T, c: T, prev: Option<T>, show: T -> string)
    ensures Celdas([a, b, c], prev, show)
         == Celda(a, prev, show) + ", " + Celda(b, prev, show) + ", " + Celda(c, prev, show)
  {
    assert [a, b, c][..2] == [a, b];
    CeldasDeDos(a, b, prev, show);
  }

  lemma CeldasDeCuatro<T>(a: T, b: T, c: T, d: T, prev: Option<T>, show: T -> string)
    ensures Celdas([a, b, c, d], prev, show)
         == Celda(a, prev, show) + ", " + Celda(b, prev, show) + ", " + Celda(c, prev, show) + ", " + Celda(d, prev, show)
  {
    assert [a, b, c, d][..3] == [a, b, c];
    CeldasDeTres(a, b, c, prev, show);
  }

  /** The texts of tests.cpp:104-116. */
  lemma TextosDeMostrar()
    ensures Mostrar(Ring([], None), IntToString) == "[]"
    ensures Mostrar(Ring([42], None), IntToString) == "[42]"
    ensures Mostrar(Ring([2, 42], None), IntToString) == "[2, 42]"
    ensures Mostrar(Ring([42, 2], Some(2)), IntToString) == "[42, 2*]"
    ensures Mostrar(Ring([2, 42], Some(42)), IntToString) == "[2, 42*]"
  {
    Numeros();
    CeldasDeDos(2, 42, None, IntToString);
    CeldasDeDos(42, 2, Some(2), IntToString);
    CeldasDeDos(2, 42, Some(42), IntToString);
  }

  /** tests.cpp:37-42. */
  method AnilloNuevoEsVacio() returns (vacio: bool, n: int)
    ensures vacio && n == 0
  {
    var a := new Anillo<int>();
    vacio := a.EsVacio();
    n := a.Tamanio();
  }

  /** tests.cpp:44-51. */
  method AnilloUnitarioDaSiguiente() returns (vacio: bool, n: int, v: int)
    ensures !vacio && n == 1 && v == 42
  {
    var a := new Anillo<int>();
    a.Agregar(42);
    vacio := a.EsVacio();
    n := a.Tamanio();
    v := a.Siguiente();
  }

  /** tests.cpp:53-57. */
  method MostrarAnilloVacio() returns (s: string)
    ensures s == "[]"
  {
    var a := new Anillo<int>();
    s := a.MostrarAnillo(IntToString);
  }

  /** tests.cpp:64-72. */
  method AnilloUnitarioCicla() returns (v1: int, v2: int, v3: int, v4: int)
    ensures v1 == 42 && v2 == 42 && v3 == 42 && v4 == 42
  {
    var a := new Anillo<int>();
    a.Agregar(42);
    v1 := a.Siguiente();
    v2 := a.Siguiente();
    v3 := a.Siguiente();
    v4 := a.Siguiente();
  }

  /** tests.cpp:74-81. */
  method UltimoEnAgregarEsElSiguiente() returns (v1: int, v2: int)
    ensures v1 == 42 && v2 == 20
  {
    var a := new Anillo<int>();
    a.Agregar(42);
    v1 := a.Siguiente();
    a.Agregar(20);
    v2 := a.Siguiente();
  }

  /** tests.cpp:83-92. */
  method AnilloConDosCicla() returns (v1: int, v2: int, v3: int, v4: int)
    ensures v1 == 20 && v2 == 42 && v3 == 20 && v4 == 42
  {
    var a := new Anillo<int>();
    a.Agregar(42);
    a.Agregar(20);
    v1 := a.Siguiente();
    v2 := a.Siguiente();
    v3 := a.Siguiente();
    v4 := a.Siguiente();
  }

  /** tests.cpp:94-102. */
  method AnilloSacaNoSiguiente() returns (v: int, n: int)
    ensures v == 20 && n == 1
  {
    var a := new Anillo<int>();
    a.Agregar(42);
    a.Agregar(20);
    assert a.Abs() == Ring([20, 42], None);
    assert QuitarPrimero([20, 42], 42) == [20] by {
      assert [20, 42][1..] == [42];
    }
    a.Eliminar(42);
    assert a.Abs() == Ring([20], None);
    v := a.Siguiente();
    n := a.Tamanio();
  }

  /** tests.cpp:104-116. */
  method MostrarAnillo() returns (s1: string, s2: string, s3: string, s4: string, s5: string)
    ensures s1 == "[]" && s2 == "[42]" && s3 == "[2, 42]" && s4 == "[42, 2*]" && s5 == "[2, 42*]"
  {
    var a := new Anillo<int>();
    TextosDeMostrar();
    s1 := a.MostrarAnillo(IntToString);
    a.Agregar(42);
    s2 := a.MostrarAnillo(IntToString);
    a.Agregar(2);
    assert a.Abs() == Ring([2, 42], None);
    s3 := a.MostrarAnillo(IntToString);
    var _ := a.Siguiente();
    assert a.Abs() == Ring([42, 2], Some(2));
    s4 := a.MostrarAnillo(IntToString);
    var _ := a.Siguiente();
    assert a.Abs() == Ring([2, 42], Some(42));
    s5 := a.MostrarAnillo(IntToString);
  }

  /** `agregar(10)`, `agregar(20)`, `agregar(30)` on a new ring: [30, 20, 10]. */
  method DiezVeinteTreinta() returns (a: Anillo<int>)
    ensures fresh(a) && a.Valid() && a.Abs() == Ring([30, 20, 10], None)
  {
    a := new Anillo<int>();
    a.Agregar(10);
    a.Agregar(20);
    a.Agregar(30);
  }

  lemma TextoClonado()
    ensures Mostrar(Ring([42, 20], Some(20)), IntToString) == "[42, 20*]"
  {
    Numeros();
    CeldasDeDos(42, 20, Some(20), IntToString);
  }

  /** tests.cpp:118-128: the copy lists the same values and keeps the anterior. */
  method AnillosClonadoPreservaAnterior() returns (s: string, s2: string)
    ensures s == "[42, 20*]" && s2 == "[42, 20*]"
  {
    var a := new Anillo<int>();
    a.Agregar(42);
    a.Agregar(20);
    var _ := a.Siguiente();
    assert a.Abs() == Ring([42, 20], Some(20));
    var a2 := new Anillo<int>.Copia(a);
    TextoClonado();
    s := a.MostrarAnillo(IntToString);
    s2 := a2.MostrarAnillo(IntToString);
  }

  lemma TextosEliminarAnterior()
    ensures Mostrar(Ring([20, 10, 30], Some(30)), IntToString) == "[20, 10, 30*]"
    ensures Mostrar(Ring([20, 10], None), IntToString) == "[20, 10]"
  {
    Numeros();
    CeldasDeTres(20, 10, 30, Some(30), IntToString);
    CeldasDeDos(20, 10, None, IntToString);
  }

  /** tests.cpp:130-142: removing the anterior forgets it. */
  method PuedeEliminarAnterior() returns (s: string, hubo: bool, s2: string, hubo2: bool)
    ensures s == "[20, 10, 30*]" && hubo && s2 == "[20, 10]" && !hubo2
  {
    var a := DiezVeinteTreinta();
    var _ := a.Siguiente();
    assert a.Abs() == Ring([20, 10, 30], Some(30));
    TextosEliminarAnterior();
    s := a.MostrarAnillo(IntToString);
    hubo := a.HuboAnterior();
    assert QuitarPrimero([20, 10, 30], 30) == [20, 10] by {
      assert [20, 10, 30][1..] == [10, 30] && [10, 30][1..] == [30];
    }
    a.Eliminar(30);
    s2 := a.MostrarAnillo(IntToString);
    hubo2 := a.HuboAnterior();
  }

  lemma TextosRetroceder()
    ensures Mostrar(Ring([20, 10, 30], Some(30)), IntToString) == "[20, 10, 30*]"
    ensures Mostrar(Ring([30, 20, 10], Some(30)), IntToString) == "[30*, 20, 10]"
    ensures Mostrar(Ring([10, 30, 20], Some(30)), IntToString) == "[10, 30*, 20]"
  {
    Numeros();
    CeldasDeTres(20, 10, 30, Some(30), IntToString);
    CeldasDeTres(30, 20, 10, Some(30), IntToString);
    CeldasDeTres(10, 30, 20, Some(30), IntToString);
  }

  /** tests.cpp:144-156: `retroceder` brings back the value before the cursor and keeps the anterior. */
  method RetrocederUnaVezRepite() returns (s: string, s2: string, s3: string)
    ensures s == "[20, 10, 30*]" && s2 == "[30*, 20, 10]" && s3 == "[10, 30*, 20]"
  {
    var a := DiezVeinteTreinta();
    var _ := a.Siguiente();
    assert a.Abs() == Ring([20, 10, 30], Some(30));
    TextosRetroceder();
    s := a.MostrarAnillo(IntToString);
    a.Retroceder();
    assert a.Abs() == Ring([30, 20, 10], Some(30));
    s2 := a.MostrarAnillo(IntToString);
    a.Retroceder();
    assert a.Abs() == Ring([10, 30, 20], Some(30));
    s3 := a.MostrarAnillo(IntToString);
  }

  // The inputs of module ComoEscrito's lemmas, on the class.

  /** `eliminar(7)` on [42] keeps the 42; `eliminar(42)` after `siguiente` forgets the anterior. */
  method UnitarioRespetaElValor() returns (n: int, n2: int, hubo: bool)
    ensures n == 1 && n2 == 0 && !hubo
  {
    var a := new Anillo<int>();
    a.Agregar(42);
    a.Eliminar(7);
    n := a.Tamanio();
    var _ := a.Siguiente();
    a.Eliminar(42);
    n2 := a.Tamanio();
    hubo := a.HuboAnterior();
  }

  /** After `eliminar(30)` on [30, 20, 10], `retroceder` and `siguiente` give the 10. */
  method EliminarActualYRetroceder() returns (v: int)
    ensures v == 10
  {
    var a := DiezVeinteTreinta();
    a.Eliminar(30);
    assert a.Abs() == Ring([20, 10], None);
    a.Retroceder();
    v := a.Siguiente();
  }

  lemma TextoEliminarUltimo()
    ensures Mostrar(Ring([40, 30, 20], None), IntToString) == "[40, 30, 20]"
  {
    Numeros();
    CeldasDeTres(40, 30, 20, None, IntToString);
  }

  /** After `eliminar(10)` on [30, 20, 10], `agregar(40)` gives [40, 30, 20]. */
  method EliminarUltimoYAgregar() returns (s: string)
    ensures s == "[40, 30, 20]"
  {
    var a := DiezVeinteTreinta();
    assert QuitarPrimero([30, 20, 10], 10) == [30, 20] by {
      assert [30, 20, 10][1..] == [20, 10] && [20, 10][1..] == [10];
    }
    a.Eliminar(10);
    assert a.Abs() == Ring([30, 20], None);
    a.Agregar(40);
    assert a.Abs() == Ring([40, 30, 20], None);
    TextoEliminarUltimo();
    s := a.MostrarAnillo(IntToString);
  }

  lemma TextoRetrocederSinAnterior()
    ensures Mostrar(Ring([30, 10, 20], None), IntToString) == "[30, 10, 20]"
  {
    Numeros();
    CeldasDeTres(30, 10, 20, None, IntToString);
  }

  /** `retroceder` on [20, 10] and then `agregar(30)` list [30, 10, 20]. */
  method RetrocederSinAnteriorYAgregar() returns (s: string)
    ensures s == "[30, 10, 20]"
  {
    var a := new Anillo<int>();
    a.Agregar(10);
    a.Agregar(20);
    a.Retroceder();
    assert a.Abs() == Ring([10, 20], None);
    a.Agregar(30);
    assert a.Abs() == Ring([30, 10, 20], None);
    TextoRetrocederSinAnterior();
    s := a.MostrarAnillo(IntToString);
  }

  lemma TextoRetrocederConAnterior()
    ensures Mostrar(Ring([40, 30, 20, 10], Some(30)), IntToString) == "[40, 30*, 20, 10]"
  {
    Numeros();
    CeldasDeCuatro(40, 30, 20, 10, Some(30), IntToString);
  }

  /** `retroceder` on [20, 10, 30*] and then `agregar(40)` list [40, 30*, 20, 10]. */
  method RetrocederConAnteriorYAgregar() returns (s: string)
    ensures s == "[40, 30*, 20, 10]"
  {
    var a := DiezVeinteTreinta();
    var _ := a.Siguiente();
    assert a.Abs() == Ring([20, 10, 30], Some(30));
    a.Retroceder();
    assert a.Abs() == Ring([30, 20, 10], Some(30));
    a.Agregar(40);
    assert a.Abs() == Ring([40, 30, 20, 10], Some(30));
    TextoRetrocederConAnterior();
    s := a.MostrarAnillo(IntToString);
  }

  /** Two empty rings, and two copies of [1], are equal. */
  method IgualesSinAnterior() returns (b: bool, b2: bool)
    ensures b && b2
  {
    var a := new Anillo<int>();
    var a2 := new Anillo<int>();
    b := a.Iguales(a2);
    a.Agregar(1);
    a2.Agregar(1);
    b2 := a.Iguales(a2);
  }

  /** `eliminar` on an empty ring leaves it empty. */
  method EliminarEnVacio() returns (n: int)
    ensures n == 0
  {
    var a := new Anillo<int>();
    a.Eliminar(5);
    n := a.Tamanio();
  }
}
