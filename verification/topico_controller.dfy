/**
 * `TopicoController` over an in-memory `TopicoRepository`: the repository is a map from
 * id to the stored `Topico` objects, plus the next identity value the database assigns.
 * `DatosRespuestaTopico` and `DatosListadoTopico` are not part of this model: response
 * bodies carry the topic's field values.
 */
module TopicoController {
  import opened Wrappers
  import opened Http
  import opened Topicos
  import opened ApiExceptionHandler

  /** `@PageableDefault(size = 10, sort = "fechaCreacion")`. */
  const DefaultPageSize := 10
  const TopicoPath := "/topicos/{id}"

  /** Some stored topic has this (titulo, mensaje) pair: `existsByTituloAndMensaje`. */
  ghost predicate HasPair(store: map<nat, TopicoData>, titulo: string, mensaje: string)
  {
    exists id :: id in store && store[id].titulo == titulo && store[id].mensaje == mensaje
  }

  /** Oldest first. */
  ghost predicate SortedByFecha(page: seq<TopicoData>)
  {
    forall i, j :: 0 <= i < j < |page| ==> page[i].fechaCreacion <= page[j].fechaCreacion
  }

  /** Among the ids in `s`, one with the earliest `fechaCreacion`. */
  lemma {:induction false} EarliestExists(store: map<nat, TopicoData>, s: set<nat>)
    requires s != {} && s <= store.Keys
    ensures exists id :: id in s && forall j :: j in s ==> store[id].fechaCreacion <= store[j].fechaCreacion
    decreases s
  {
    var x :| x in s;
    if s != {x} {
      EarliestExists(store, s - {x});
      var y :| y in s - {x} && forall j :: j in s - {x} ==> store[y].fechaCreacion <= store[j].fechaCreacion;
      if store[x].fechaCreacion <= store[y].fechaCreacion {
        assert forall j :: j in s ==> store[x].fechaCreacion <= store[j].fechaCreacion;
      } else {
        assert forall j :: j in s ==> store[y].fechaCreacion <= store[j].fechaCreacion;
      }
    }
  }

  /**
   * The duplicate check runs only at registration: an update may give one topic the pair
   * another topic already has, so unique pairs are not an invariant of the store.
   */
  lemma UpdateMayDuplicatePair(store: map<nat, TopicoData>, a: nat, b: nat)
    requires a in store && b in store && a != b
    ensures var d := DatosActualizarTopico(Some(store[b].titulo), Some(store[b].mensaje), None, None);
      HasPair(store[a := Actualizado(store[a], d)] - {b}, store[b].titulo, store[b].mensaje)
  {
    var d := DatosActualizarTopico(Some(store[b].titulo), Some(store[b].mensaje), None, None);
    assert (store[a := Actualizado(store[a], d)] - {b})[a] == Actualizado(store[a], d);
  }

  class TopicoController {
    var topicos: map<nat, Topico>
    var nextId: nat

    /** Every stored topic carries its own key as id, below the next identity value. */
    ghost predicate Valid()
      reads this, topicos.Values
    {
      && 0 < nextId
      && forall id :: id in topicos ==> 0 < id < nextId && topicos[id].id == NonNull(id)
    }

    /** The stored topics' current field values. */
    function Snapshot(): (store: map<nat, TopicoData>)
      reads this, topicos.Values
      ensures store.Keys == topicos.Keys
    {
      map id | id in topicos :: topicos[id].Data()
    }

    constructor ()
      ensures Valid() && Snapshot() == map[] && nextId == 1
    {
      topicos := map[];
      nextId := 1;
    }

    /**
     * `registrarTopico`: 400 and no change when the (titulo, mensaje) pair is taken;
     * otherwise one new ACTIVO topic under a fresh id, and 201 with its location.
     */
    method RegistrarTopico(datos: DatosRegistroTopico, now: int) returns (resp: ResponseEntity<TopicoData>)
      requires Valid()
      modifies this
      ensures Valid()
      ensures HasPair(old(Snapshot()), datos.titulo, datos.mensaje) ==>
        && resp == ResponseEntity(BadRequest400, None, None)
        && Snapshot() == old(Snapshot()) && nextId == old(nextId)
      ensures !HasPair(old(Snapshot()), datos.titulo, datos.mensaje) ==>
        && old(nextId) !in old(Snapshot())
        && Snapshot() == old(Snapshot())[old(nextId) := TopicoData(NonNull(old(nextId)), datos.titulo,
             datos.mensaje, now, StatusActivo, datos.autor, datos.curso)]
        && resp == ResponseEntity(Created201, Some(Uri(TopicoPath, old(nextId))), Some(Snapshot()[old(nextId)]))
    {
      ghost var before := Snapshot();
      var taken := exists id :: id in topicos && topicos[id].titulo == datos.titulo && topicos[id].mensaje == datos.mensaje;
      assert taken <==> HasPair(before, datos.titulo, datos.mensaje) by {
        if HasPair(before, datos.titulo, datos.mensaje) {
          var id :| id in before && before[id].titulo == datos.titulo && before[id].mensaje == datos.mensaje;
          assert topicos[id].Data() == before[id];
        }
      }
      if taken {
        resp := ResponseEntity(BadRequest400, None, None);
        return;
      }
      var topico := new Topico(datos, now);
      assert Snapshot() == before;
      var id := Save(topico);
      resp := ResponseEntity(Created201, Some(Uri(TopicoPath, id)), Some(topico.Data()));
    }

    /** `topicoRepository.save` of a new topic: the database assigns it the next identity value. */
    method Save(topico: Topico) returns (id: nat)
      requires Valid()
      requires topico !in topicos.Values && topico.id.Null?
      modifies this, topico
      ensures Valid()
      ensures id == old(nextId) && id !in old(Snapshot())
      ensures topico.Data() == old(topico.Data()).(id := NonNull(id))
      ensures Snapshot() == old(Snapshot())[id := old(topico.Data()).(id := NonNull(id))]
    {
      ghost var before := Snapshot();
      id := nextId;
      topico.id := NonNull(id);
      assert Snapshot() == before;
      ghost var stored := topicos;
      topicos := topicos[id := topico];
      nextId := id + 1;
      forall k | k in before ensures topicos[k].Data() == before[k] {
        assert topicos[k] == stored[k];
      }
    }

    /**
     * `actualizarTopico`: `getReferenceById` fails for an unknown id; otherwise only that
     * topic changes, through `actualizarDatos`.
     */
    method ActualizarTopico(id: int, datos: DatosActualizarTopico) returns (r: Result<ResponseEntity<TopicoData>, ApiException>)
      requires Valid()
      modifies topicos.Values
      ensures Valid()
      ensures id !in old(Snapshot()) ==> r == Err(EntityNotFound) && Snapshot() == old(Snapshot())
      ensures id in old(Snapshot()) ==>
        && Snapshot() == old(Snapshot())[id := Actualizado(old(Snapshot())[id], datos)]
        && r == Ok(ResponseEntity(Ok200, None, Some(Snapshot()[id])))
    {
      if id !in topicos {
        return Err(EntityNotFound);
      }
      var topico := topicos[id];
      assert forall j :: j in topicos && j != id ==> topicos[j] != topico;
      topico.ActualizarDatos(datos);
      r := Ok(ResponseEntity(Ok200, None, Some(topico.Data())));
    }

    /** `retornaDatosTopico`: the topic's values, or `EntityNotFound`; nothing changes. */
    method RetornaDatosTopico(id: int) returns (r: Result<ResponseEntity<TopicoData>, ApiException>)
      requires Valid()
      ensures id in Snapshot() ==> r == Ok(ResponseEntity(Ok200, None, Some(Snapshot()[id])))
      ensures id !in Snapshot() ==> r == Err(EntityNotFound)
    {
      if id !in topicos {
        return Err(EntityNotFound);
      }
      r := Ok(ResponseEntity(Ok200, None, Some(topicos[id].Data())));
    }

    /** `eliminarTopico`: the topic with that id is gone, if there was one; always 204. */
    method EliminarTopico(id: int) returns (resp: ResponseEntity<TopicoData>)
      requires Valid()
      modifies this
      ensures Valid() && nextId == old(nextId)
      ensures Snapshot() == old(Snapshot()) - {id}
      ensures resp == ResponseEntity(NoContent204, None, None)
    {
      topicos := topicos - {id};
      resp := ResponseEntity(NoContent204, None, None);
    }

    /**
     * `listadoTopicos` with the default pageable: the first page of at most ten topics,
     * oldest first; nothing changes.
     */
    method ListadoTopicos() returns (page: seq<TopicoData>)
      requires Valid()
      ensures IsFirstPage(Snapshot(), page, DefaultPageSize)
    {
      var store := Snapshot();
      assert KeyedById(store);
      page := FirstPage(store, DefaultPageSize);
    }
  }

  /** Every stored topic carries its key as id. */
  ghost predicate KeyedById(store: map<nat, TopicoData>)
  {
    forall id :: id in store ==> store[id].id == NonNull(id)
  }

  /** The ids of the topics on a page, in order. */
  function IdsOf(page: seq<TopicoData>): (ids: seq<Nullable<nat>>)
    ensures |ids| == |page| && forall i :: 0 <= i < |page| ==> ids[i] == page[i].id
  {
    seq(|page|, i requires 0 <= i < |page| => page[i].id)
  }

  /**
   * `page` is a first page of `size` topics sorted by `fechaCreacion`: as many distinct
   * stored topics as fit, oldest first, and no stored topic left off it is older than
   * one on it.
   */
  ghost predicate IsFirstPage(store: map<nat, TopicoData>, page: seq<TopicoData>, size: nat)
  {
    && |page| == (if |store| < size then |store| else size)
    && (forall i :: 0 <= i < |page| ==>
          page[i].id.NonNull? && page[i].id.value in store && store[page[i].id.value] == page[i])
    && (forall i, j :: 0 <= i < j < |page| ==> page[i].id != page[j].id)
    && SortedByFecha(page)
    && (forall id, i :: id in store && NonNull(id) !in IdsOf(page) && 0 <= i < |page| ==>
          page[i].fechaCreacion <= store[id].fechaCreacion)
  }

  /** `findAll(PageRequest.of(0, size, Sort.by("fechaCreacion")))` over a store keyed by id. */
  method FirstPage(store: map<nat, TopicoData>, size: nat) returns (page: seq<TopicoData>)
    requires KeyedById(store)
    ensures IsFirstPage(store, page, size)
  {
    var keys := OldestFirst(store, size);
    page := seq(|keys|, i requires 0 <= i < |keys| => store[keys[i]]);
    forall id | id in keys ensures NonNull(id) in IdsOf(page) {
      var k :| 0 <= k < |keys| && keys[k] == id;
      assert IdsOf(page)[k] == NonNull(id);
    }
  }

  /**
   * `keys` lists, oldest first, distinct ids of `store` that are no younger than any id in
   * `remaining`, and every id of `store` is in exactly one of the two.
   */
  ghost predicate Selection(store: map<nat, TopicoData>, keys: seq<nat>, remaining: set<nat>)
  {
    && remaining <= store.Keys
    && (forall i :: 0 <= i < |keys| ==> keys[i] in store && keys[i] !in remaining)
    && (forall id :: id in store && id !in remaining ==> id in keys)
    && (forall i, j :: 0 <= i < j < |keys| ==> keys[i] != keys[j])
    && (forall i, j :: 0 <= i < j < |keys| ==> store[keys[i]].fechaCreacion <= store[keys[j]].fechaCreacion)
    && (forall i, id :: 0 <= i < |keys| && id in remaining ==> store[keys[i]].fechaCreacion <= store[id].fechaCreacion)
  }

  /** Moving the earliest remaining id to the end of `keys` keeps the selection. */
  lemma SelectionStep(store: map<nat, TopicoData>, keys: seq<nat>, remaining: set<nat>, id: nat)
    requires Selection(store, keys, remaining)
    requires id in remaining && forall j :: j in remaining ==> store[id].fechaCreacion <= store[j].fechaCreacion
    ensures Selection(store, keys + [id], remaining - {id})
  {
  }

  /**
   * The ids of the `size` oldest topics of `store` (all of them when there are fewer),
   * oldest first; ties are broken arbitrarily, as the database may.
   */
  method OldestFirst(store: map<nat, TopicoData>, size: nat) returns (keys: seq<nat>)
    ensures |keys| == if |store| < size then |store| else size
    ensures forall i :: 0 <= i < |keys| ==> keys[i] in store
    ensures forall i, j :: 0 <= i < j < |keys| ==> keys[i] != keys[j]
    ensures forall i, j :: 0 <= i < j < |keys| ==> store[keys[i]].fechaCreacion <= store[keys[j]].fechaCreacion
    ensures forall id, i :: id in store && id !in keys && 0 <= i < |keys| ==>
      store[keys[i]].fechaCreacion <= store[id].fechaCreacion
  {
    var remaining := store.Keys;
    assert |remaining| == |store|;
    keys := [];
    while |keys| < size && remaining != {}
      invariant Selection(store, keys, remaining)
      invariant |keys| + |remaining| == |store|
      invariant |keys| <= size
      decreases remaining
    {
      EarliestExists(store, remaining);
      var id :| id in remaining && forall j :: j in remaining ==> store[id].fechaCreacion <= store[j].fechaCreacion;
      SelectionStep(store, keys, remaining, id);
      keys := keys + [id];
      remaining := remaining - {id};
    }
  }
}
