/**
 * Users and the user repository. `Usuario.java` is not part of this model: the
 * entity is reduced to the four values the controllers pass to its constructor.
 */
module Usuarios {
  import opened Wrappers

  /** A user row; `id` is `null` until the repository saves it. */
  datatype Usuario = Usuario(id: Nullable<nat>, nombre: string, email: string, contrasena: string)

  /** Spring Data's error when a single-result query matches several rows. */
  datatype DataAccessError = IncorrectResultSize(actual: nat)

  /** The ids of the stored users whose email is `email`. */
  function IdsWithEmail(usuarios: map<nat, Usuario>, email: string): (ids: set<nat>)
    ensures forall id :: id in ids <==> id in usuarios && usuarios[id].email == email
  {
    set id | id in usuarios && usuarios[id].email == email
  }

  lemma SingletonMember<T>(s: set<T>, x: T, y: T)
    requires |s| == 1 && x in s && y in s
    ensures x == y
  {
    assert |s - {x}| == 0;
    assert y !in s - {x};
  }

  /**
   * `usuarioRepository.findByEmail(email)`: empty when no user has that email, the user
   * when exactly one has it, and `IncorrectResultSizeDataAccessException` otherwise.
   */
  function FindByEmail(usuarios: map<nat, Usuario>, email: string): (r: Result<Option<Usuario>, DataAccessError>)
    ensures r == Ok(None) <==> (forall id :: id in usuarios ==> usuarios[id].email != email)
    ensures r.Ok? && r.value.Some? ==>
      r.value.value.email == email && exists id :: id in usuarios && usuarios[id] == r.value.value
    ensures r.Err? <==> |IdsWithEmail(usuarios, email)| > 1
  {
    var ids := IdsWithEmail(usuarios, email);
    if ids == {} then Ok(None)
    else if |ids| == 1 then
      assert forall x, y :: x in ids && y in ids ==> x == y by {
        forall x, y | x in ids && y in ids ensures x == y { SingletonMember(ids, x, y); }
      }
      var id :| id in ids;
      Ok(Some(usuarios[id]))
    else Err(IncorrectResultSize(|ids|))
  }

  /** No two stored users share an email. */
  ghost predicate UniqueEmails(usuarios: map<nat, Usuario>)
  {
    forall i, j :: i in usuarios && j in usuarios && usuarios[i].email == usuarios[j].email ==> i == j
  }

  /** While emails are unique, `findByEmail` never throws, and finds exactly the stored user. */
  lemma FindByEmailUnique(usuarios: map<nat, Usuario>, email: string)
    requires UniqueEmails(usuarios)
    ensures FindByEmail(usuarios, email).Ok?
    ensures forall id :: id in usuarios && usuarios[id].email == email ==>
      FindByEmail(usuarios, email) == Ok(Some(usuarios[id]))
  {
    var ids := IdsWithEmail(usuarios, email);
    if ids != {} {
      var id :| id in ids;
      assert ids == {id};
    }
  }

  /**
   * The user repository: rows keyed by id, and the next id the database will
   * assign (`GenerationType.IDENTITY`).
   */
  class UsuarioRepository {
    var usuarios: map<nat, Usuario>
    var nextId: nat

    ghost predicate Valid()
      reads this
    {
      && 0 < nextId
      && (forall id :: id in usuarios ==> 0 < id < nextId && usuarios[id].id == NonNull(id))
      && UniqueEmails(usuarios)
    }

    constructor ()
      ensures Valid() && usuarios == map[] && nextId == 1
    {
      usuarios := map[];
      nextId := 1;
    }

    /**
     * `save` of a new user: the database assigns the next identity value, and the
     * saved row carries it.
     */
    method Save(u: Usuario) returns (saved: Usuario)
      requires Valid()
      requires u.id.Null?
      requires forall id :: id in usuarios ==> usuarios[id].email != u.email
      modifies this
      ensures Valid()
      ensures saved == u.(id := NonNull(old(nextId)))
      ensures old(nextId) !in old(usuarios)
      ensures usuarios == old(usuarios)[old(nextId) := saved]
      ensures nextId == old(nextId) + 1
    {
      saved := u.(id := NonNull(nextId));
      usuarios := usuarios[nextId := saved];
      nextId := nextId + 1;
    }
  }
}
