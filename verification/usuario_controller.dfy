/**
 * `UsuarioController`: registration of a user over the user repository, with the
 * password encoder as a collaborator whose `encode` is an abstract function.
 */
module UsuarioController {
  import opened Wrappers
  import opened Http
  import opened Usuarios

  const UsuarioPath := "/usuarios/{id}"
  const EmailDuplicadoMessage := "Ya existe un usuario registrado con ese email."

  /** `DatosRegistroUsuario`: the registration request body. */
  datatype DatosRegistroUsuario = DatosRegistroUsuario(nombre: string, email: string, contrasena: string)

  /** The nested `DatosRespuestaUsuario`: the user's id, name and email, and nothing else. */
  datatype DatosRespuestaUsuario = DatosRespuestaUsuario(id: Nullable<nat>, nombre: string, email: string)

  /** What registration throws instead of answering. */
  datatype RegistroError = EmailDuplicado(message: string)

  /** The projection `new DatosRespuestaUsuario(usuario)`, which leaves the password behind. */
  function Respuesta(u: Usuario): (d: DatosRespuestaUsuario)
    ensures d.id == u.id && d.nombre == u.nombre && d.email == u.email
  {
    DatosRespuestaUsuario(u.id, u.nombre, u.email)
  }

  /** Two users that differ only in their password project to the same response. */
  lemma RespuestaIgnoresPassword(u: Usuario, otherPassword: string)
    ensures Respuesta(u) == Respuesta(u.(contrasena := otherPassword))
  {
  }

  /** Some stored user already has this email. */
  ghost predicate EmailTaken(usuarios: map<nat, Usuario>, email: string)
  {
    exists id :: id in usuarios && usuarios[id].email == email
  }

  /** A `PasswordEncoder`: `encode` is the function given, and each call is recorded. */
  class PasswordEncoder {
    const encodeFn: string -> string
    var encoded: seq<string>

    constructor (encodeFn: string -> string)
      ensures this.encodeFn == encodeFn && encoded == []
    {
      this.encodeFn := encodeFn;
      encoded := [];
    }

    method Encode(raw: string) returns (hash: string)
      modifies this
      ensures hash == encodeFn(raw)
      ensures encoded == old(encoded) + [raw]
    {
      hash := encodeFn(raw);
      encoded := encoded + [raw];
    }
  }

  class UsuarioController {
    const usuarioRepository: UsuarioRepository
    const passwordEncoder: PasswordEncoder

    constructor (usuarioRepository: UsuarioRepository, passwordEncoder: PasswordEncoder)
      ensures this.usuarioRepository == usuarioRepository && this.passwordEncoder == passwordEncoder
    {
      this.usuarioRepository := usuarioRepository;
      this.passwordEncoder := passwordEncoder;
    }

    /**
     * `registrarUsuario`: a taken email throws `EmailDuplicadoException` before the encoder
     * is called and nothing is saved; otherwise exactly one user is added under the next
     * id, holding the encoded password, and the answer is 201 with its location and a
     * body without the password.
     */
    method RegistrarUsuario(datos: DatosRegistroUsuario) returns (r: Result<ResponseEntity<DatosRespuestaUsuario>, RegistroError>)
      requires usuarioRepository.Valid()
      modifies usuarioRepository, passwordEncoder
      ensures usuarioRepository.Valid()
      ensures EmailTaken(old(usuarioRepository.usuarios), datos.email) ==>
        && r == Err(EmailDuplicado(EmailDuplicadoMessage))
        && usuarioRepository.usuarios == old(usuarioRepository.usuarios)
        && usuarioRepository.nextId == old(usuarioRepository.nextId)
        && passwordEncoder.encoded == old(passwordEncoder.encoded)
      ensures !EmailTaken(old(usuarioRepository.usuarios), datos.email) ==>
        var id := old(usuarioRepository.nextId);
        && id !in old(usuarioRepository.usuarios)
        && usuarioRepository.usuarios == old(usuarioRepository.usuarios)[id :=
             Usuario(NonNull(id), datos.nombre, datos.email, passwordEncoder.encodeFn(datos.contrasena))]
        && passwordEncoder.encoded == old(passwordEncoder.encoded) + [datos.contrasena]
        && r == Ok(ResponseEntity(Created201, Some(Uri(UsuarioPath, id)),
                                  Some(DatosRespuestaUsuario(NonNull(id), datos.nombre, datos.email))))
    {
      var found := FindByEmail(usuarioRepository.usuarios, datos.email);
      FindByEmailUnique(usuarioRepository.usuarios, datos.email);
      match found
      case Err(e) =>
        assert false;
      case Ok(Some(_)) =>
        r := Err(EmailDuplicado(EmailDuplicadoMessage));
      case Ok(None) =>
        var contrasenaCodificada := passwordEncoder.Encode(datos.contrasena);
        var usuario := Usuario(Null, datos.nombre, datos.email, contrasenaCodificada);
        var saved := usuarioRepository.Save(usuario);
        r := Ok(ResponseEntity(Created201, Some(Uri(UsuarioPath, saved.id.value)), Some(Respuesta(saved))));
    }
  }
}
