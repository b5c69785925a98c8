/** The topic entity, its registration and update payloads, and the in-place partial update. */
module Topicos {
  import opened Wrappers

  const StatusActivo := "ACTIVO"

  /** `DatosRegistroTopico`: the four values a new topic is created from. */
  datatype DatosRegistroTopico = DatosRegistroTopico(titulo: string, mensaje: string, autor: string, curso: string)

  /** `DatosActualizarTopico`: each field either carries a new value or is left empty. */
  datatype DatosActualizarTopico = DatosActualizarTopico(
    titulo: Option<string>,
    mensaje: Option<string>,
    autor: Option<string>,
    curso: Option<string>)
  {
    /** The convenience constructor: each possibly-null argument goes through `Optional.ofNullable`, in order. */
    static function OfNullables(titulo: Nullable<string>, mensaje: Nullable<string>,
                                autor: Nullable<string>, curso: Nullable<string>): (d: DatosActualizarTopico)
      ensures d.titulo.None? <==> titulo.Null?
      ensures d.mensaje.None? <==> mensaje.Null?
      ensures d.autor.None? <==> autor.Null?
      ensures d.curso.None? <==> curso.Null?
      ensures d.titulo.Some? ==> d.titulo.value == titulo.value
      ensures d.mensaje.Some? ==> d.mensaje.value == mensaje.value
      ensures d.autor.Some? ==> d.autor.value == autor.value
      ensures d.curso.Some? ==> d.curso.value == curso.value
    {
      DatosActualizarTopico(OfNullable(titulo), OfNullable(mensaje), OfNullable(autor), OfNullable(curso))
    }

    /** No field carries a value. */
    predicate IsEmpty()
    {
      titulo.None? && mensaje.None? && autor.None? && curso.None?
    }
  }

  /** The state of one `Topico` object, field by field. */
  datatype TopicoData = TopicoData(
    id: Nullable<nat>,
    titulo: string,
    mensaje: string,
    fechaCreacion: int,
    status: string,
    autor: string,
    curso: string)

  /** `optional.orElse(current)`. */
  function OrKeep(update: Option<string>, current: string): string
  {
    match update
    case Some(v) => v
    case None => current
  }

  /** The state `actualizarDatos` leaves behind: each present field replaces its value. */
  function Actualizado(t: TopicoData, d: DatosActualizarTopico): TopicoData
  {
    t.(titulo := OrKeep(d.titulo, t.titulo),
       mensaje := OrKeep(d.mensaje, t.mensaje),
       autor := OrKeep(d.autor, t.autor),
       curso := OrKeep(d.curso, t.curso))
  }

  /** A present field overwrites, an empty one keeps the old value. */
  lemma ActualizadoFields(t: TopicoData, d: DatosActualizarTopico)
    ensures Actualizado(t, d).titulo == if d.titulo.Some? then d.titulo.value else t.titulo
    ensures Actualizado(t, d).mensaje == if d.mensaje.Some? then d.mensaje.value else t.mensaje
    ensures Actualizado(t, d).autor == if d.autor.Some? then d.autor.value else t.autor
    ensures Actualizado(t, d).curso == if d.curso.Some? then d.curso.value else t.curso
  {
  }

  /** The update never touches id, status or fechaCreacion. */
  lemma ActualizadoKeepsIdentity(t: TopicoData, d: DatosActualizarTopico)
    ensures Actualizado(t, d).id == t.id
    ensures Actualizado(t, d).status == t.status
    ensures Actualizado(t, d).fechaCreacion == t.fechaCreacion
  {
  }

  /** An update with every field empty is a no-op. */
  lemma EmptyUpdateNoOp(t: TopicoData, d: DatosActualizarTopico)
    requires d.IsEmpty()
    ensures Actualizado(t, d) == t
  {
  }

  /** Applying the same update twice is the same as applying it once. */
  lemma ActualizadoIdempotent(t: TopicoData, d: DatosActualizarTopico)
    ensures Actualizado(Actualizado(t, d), d) == Actualizado(t, d)
  {
  }

  /** Built from four nulls, the update leaves every topic as it was. */
  lemma AllNullUpdateNoOp(t: TopicoData)
    ensures Actualizado(t, DatosActualizarTopico.OfNullables(Null, Null, Null, Null)) == t
  {
    EmptyUpdateNoOp(t, DatosActualizarTopico.OfNullables(Null, Null, Null, Null));
  }

  /** The JPA entity `Topico`: fields updated in place, equality by id only. */
  class Topico {
    var id: Nullable<nat>
    var titulo: string
    var mensaje: string
    var fechaCreacion: int
    var status: string
    var autor: string
    var curso: string

    /** A new topic: the registration values, the creation time given, status ACTIVO, no id yet. */
    constructor (datos: DatosRegistroTopico, now: int)
      ensures Data() == TopicoData(Null, datos.titulo, datos.mensaje, now, StatusActivo, datos.autor, datos.curso)
    {
      id := Null;
      titulo := datos.titulo;
      mensaje := datos.mensaje;
      fechaCreacion := now;
      status := StatusActivo;
      autor := datos.autor;
      curso := datos.curso;
    }

    /** The current state of the object. */
    function Data(): TopicoData
      reads this
    {
      TopicoData(id, titulo, mensaje, fechaCreacion, status, autor, curso)
    }

    /** `actualizarDatos`: each `ifPresent` assigns its field; status and fechaCreacion stay. */
    method ActualizarDatos(datos: DatosActualizarTopico)
      modifies this
      ensures Data() == Actualizado(old(Data()), datos)
      ensures id == old(id) && status == old(status) && fechaCreacion == old(fechaCreacion)
      ensures datos.titulo.Some? ==> titulo == datos.titulo.value
      ensures datos.titulo.None? ==> titulo == old(titulo)
      ensures datos.mensaje.Some? ==> mensaje == datos.mensaje.value
      ensures datos.mensaje.None? ==> mensaje == old(mensaje)
      ensures datos.autor.Some? ==> autor == datos.autor.value
      ensures datos.autor.None? ==> autor == old(autor)
      ensures datos.curso.Some? ==> curso == datos.curso.value
      ensures datos.curso.None? ==> curso == old(curso)
    {
      if datos.titulo.Some? { titulo := datos.titulo.value; }
      if datos.mensaje.Some? { mensaje := datos.mensaje.value; }
      if datos.autor.Some? { autor := datos.autor.value; }
      if datos.curso.Some? { curso := datos.curso.value; }
    }

    /**
     * Lombok's `@EqualsAndHashCode(of = "id")`: the same object, or both ids null, or both
     * ids equal. Two topics not yet saved are therefore equal whatever their contents.
     */
    predicate EqualsById(other: Topico)
      reads this, other
      ensures EqualsById(other) <==> id == other.id
    {
      this == other ||
      (if id.Null? then other.id.Null? else other.id.NonNull? && id.value == other.id.value)
    }
  }

  /** Id equality is an equivalence: reflexive, symmetric and transitive. */
  lemma EqualsByIdEquivalence(a: Topico, b: Topico, c: Topico)
    ensures a.EqualsById(a)
    ensures a.EqualsById(b) ==> b.EqualsById(a)
    ensures a.EqualsById(b) && b.EqualsById(c) ==> a.EqualsById(c)
  {
  }
}
