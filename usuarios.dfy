/** The user service: registration guarded by e-mail uniqueness, and the
    two-stage login check, over an abstract user store. The store is the
    sequence of saved user rows; the three repository queries the service
    uses (existsByEmail, findByEmail, save) are defined on it. */
module Usuarios {
  import opened Comum

  /** A user record; every field may be null, as in `new Usuario()`. */
  datatype Usuario = Usuario(id: Option<int>, nome: Option<string>, email: Option<string>, senha: Option<string>)

  const MsgEmailJaCadastrado: string := "Já existe um usuário cadastrado com este email."
  const MsgUsuarioNaoEncontrado: string := "Usuário não encontrado para o email informado."
  const MsgSenhaInvalida: string := "Senha inválida."

  /** existsByEmail: some stored row has exactly this e-mail (null matches null). */
  predicate ExisteEmail(usuarios: seq<Usuario>, email: Option<string>): (b: bool)
    ensures b <==> email in (set u | u in usuarios :: u.email)
  {
    exists i :: 0 <= i < |usuarios| && usuarios[i].email == email
  }

  /** The store invariant registration maintains: no two rows share an e-mail. */
  predicate EmailsDistintos(usuarios: seq<Usuario>) {
    forall i, j :: 0 <= i < j < |usuarios| ==> usuarios[i].email != usuarios[j].email
  }

  /** No two rows share an id. */
  predicate IdsDistintos(usuarios: seq<Usuario>) {
    forall i, j :: 0 <= i < j < |usuarios| ==> usuarios[i].id != usuarios[j].id
  }

  /** findByEmail: the first stored row with this e-mail, if there is one. */
  function ObterPorEmail(usuarios: seq<Usuario>, email: Option<string>): (r: Option<Usuario>)
    ensures r.None? <==> !ExisteEmail(usuarios, email)
    ensures r.Some? ==> r.value in usuarios && r.value.email == email
  {
    if usuarios == [] then None
    else if usuarios[0].email == email then Some(usuarios[0])
    else
      var r := ObterPorEmail(usuarios[1..], email);
      assert ExisteEmail(usuarios, email) ==> ExisteEmail(usuarios[1..], email) by {
        if ExisteEmail(usuarios, email) {
          var i :| 0 <= i < |usuarios| && usuarios[i].email == email;
          assert usuarios[1..][i - 1].email == email;
        }
      }
      assert ExisteEmail(usuarios[1..], email) ==> ExisteEmail(usuarios, email) by {
        if ExisteEmail(usuarios[1..], email) {
          var i :| 0 <= i < |usuarios| - 1 && usuarios[1..][i].email == email;
          assert usuarios[i + 1].email == email;
        }
      }
      r
  }

  /** In a store without duplicate e-mails, findByEmail returns the one row with that e-mail. */
  lemma ObterPorEmailUnico(usuarios: seq<Usuario>, k: int)
    requires EmailsDistintos(usuarios)
    requires 0 <= k < |usuarios|
    ensures ObterPorEmail(usuarios, usuarios[k].email) == Some(usuarios[k])
  {
  }

  /** The position of the row with this id, if there is one. */
  function IndicePorId(usuarios: seq<Usuario>, id: int): (r: Option<nat>)
    ensures r.Some? ==> r.value < |usuarios| && usuarios[r.value].id == Some(id)
    ensures r.None? ==> forall i :: 0 <= i < |usuarios| ==> usuarios[i].id != Some(id)
  {
    if usuarios == [] then None
    else if usuarios[0].id == Some(id) then Some(0)
    else
      match IndicePorId(usuarios[1..], id)
      case None =>
        assert forall i :: 1 <= i < |usuarios| ==> usuarios[i] == usuarios[1..][i - 1];
        None
      case Some(i) => Some(i + 1)
  }

  /** save, for a record that already carries its id: the row with that id is
      replaced, or the record is added as a new row. */
  function Persistido(usuarios: seq<Usuario>, salvo: Usuario): (r: seq<Usuario>)
    requires salvo.id.Some?
    ensures salvo in r
    ensures forall u :: u in usuarios && u.id != salvo.id ==> u in r
    ensures forall u :: u in r ==> u == salvo || u in usuarios
  {
    match IndicePorId(usuarios, salvo.id.value)
    case Some(i) =>
      var r := usuarios[i := salvo];
      assert r[i] == salvo;
      assert forall j :: 0 <= j < |usuarios| && j != i ==> r[j] == usuarios[j];
      r
    case None => usuarios + [salvo]
  }

  /** Saving a record whose e-mail is not yet stored keeps the e-mails distinct. */
  lemma PersistidoPreservaEmails(usuarios: seq<Usuario>, salvo: Usuario)
    requires salvo.id.Some?
    requires EmailsDistintos(usuarios) && IdsDistintos(usuarios)
    requires !ExisteEmail(usuarios, salvo.email)
    ensures EmailsDistintos(Persistido(usuarios, salvo))
    ensures IdsDistintos(Persistido(usuarios, salvo))
  {
  }

  /** validarEmail: passes exactly when no stored user has this e-mail, and
      otherwise fails with a business-rule error. */
  function ValidarEmail(usuarios: seq<Usuario>, email: Option<string>): (r: Outcome)
    ensures r == Pass <==> forall i :: 0 <= i < |usuarios| ==> usuarios[i].email != email
    ensures r != Pass ==> r == Fail(RegraNegocio(MsgEmailJaCadastrado))
  {
    if ExisteEmail(usuarios, email) then Fail(RegraNegocio(MsgEmailJaCadastrado)) else Pass
  }

  /** autenticar: first "no user with this e-mail", then "wrong password";
      both failures are authentication errors. */
  function Autenticar(usuarios: seq<Usuario>, email: string, senha: string): (r: Result<Usuario>)
    ensures r == Failure(ErroAutenticacao(MsgUsuarioNaoEncontrado)) <==> !ExisteEmail(usuarios, Some(email))
    ensures r.Failure? ==> r.error.ErroAutenticacao?
    ensures r.Success? ==> r.value in usuarios && r.value.email == Some(email) && r.value.senha == Some(senha)
  {
    match ObterPorEmail(usuarios, Some(email))
    case None => Failure(ErroAutenticacao(MsgUsuarioNaoEncontrado))
    case Some(u) =>
      if u.senha != Some(senha) then Failure(ErroAutenticacao(MsgSenhaInvalida))
      else Success(u)
  }

  /** A stored user logging in with the stored password gets that user back. */
  lemma AutenticarSucesso(usuarios: seq<Usuario>, k: int, email: string, senha: string)
    requires EmailsDistintos(usuarios)
    requires 0 <= k < |usuarios|
    requires usuarios[k].email == Some(email) && usuarios[k].senha == Some(senha)
    ensures Autenticar(usuarios, email, senha) == Success(usuarios[k])
  {
  }

  /** A stored user logging in with any other password is refused with "Senha inválida.". */
  lemma AutenticarSenhaInvalida(usuarios: seq<Usuario>, k: int, email: string, senha: string)
    requires EmailsDistintos(usuarios)
    requires 0 <= k < |usuarios|
    requires usuarios[k].email == Some(email) && usuarios[k].senha != Some(senha)
    ensures Autenticar(usuarios, email, senha) == Failure(ErroAutenticacao(MsgSenhaInvalida))
  {
  }

  /** The user service over its store. The store hands out ids greater than
      every id it holds. */
  class UsuarioService {
    var usuarios: seq<Usuario>
    var proximoId: int

    ghost predicate Valid()
      reads this
    {
      && EmailsDistintos(usuarios)
      && IdsDistintos(usuarios)
      && forall i :: 0 <= i < |usuarios| ==> usuarios[i].id.Some? && usuarios[i].id.value < proximoId
    }

    constructor ()
      ensures Valid() && usuarios == []
    {
      usuarios := [];
      proximoId := 1;
    }

    /** salvarUsuario: validarEmail on the user's e-mail, then save. The store
        is written only when the guard passes; the result is the saved record,
        which carries an id. */
    method SalvarUsuario(u: Usuario) returns (r: Result<Usuario>)
      requires Valid()
      modifies this
      ensures Valid()
      ensures ValidarEmail(old(usuarios), u.email) != Pass ==>
        r == Failure(RegraNegocio(MsgEmailJaCadastrado)) && unchanged(this)
      ensures ValidarEmail(old(usuarios), u.email) == Pass ==>
        && r.Success?
        && r.value == u.(id := r.value.id)
        && r.value.id == (if u.id.Some? then u.id else Some(old(proximoId)))
        && usuarios == Persistido(old(usuarios), r.value)
    {
      var v := ValidarEmail(usuarios, u.email);
      if v != Pass {
        return Failure(v.error);
      }
      var k := if u.id.Some? then u.id.value else proximoId;
      var salvo := u.(id := Some(k));
      PersistidoPreservaEmails(usuarios, salvo);
      usuarios := Persistido(usuarios, salvo);
      proximoId := Max(proximoId, k + 1);
      r := Success(salvo);
    }
  }

  /** A user just registered can log in with the registered e-mail and password. */
  lemma RegistradoAutentica(usuarios: seq<Usuario>, salvo: Usuario, email: string, senha: string)
    requires salvo.id.Some?
    requires EmailsDistintos(usuarios) && IdsDistintos(usuarios)
    requires ValidarEmail(usuarios, salvo.email) == Pass
    requires salvo.email == Some(email) && salvo.senha == Some(senha)
    ensures Autenticar(Persistido(usuarios, salvo), email, senha) == Success(salvo)
  {
  }
}
