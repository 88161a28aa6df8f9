/** `UsuarioController` (`/api/usuarios`): each endpoint as a function of
    the stored users (and entries, for the balance). */
module UsuarioController {
  import opened Model
  import opened Tables
  import opened Repositories
  import opened Responses
  import UsuarioService
  import LancamentoService
  import Balance

  /** `UsuarioDTO`: the request body. */
  datatype UsuarioDTO = UsuarioDTO(email: Option<string>, nome: Option<string>, senha: Option<string>)

  /** `POST`: builds an id-less user from the DTO's name, password and email
      and saves it: 201 with the saved user when the email is free,
      otherwise 400 with the business-rule message and nothing stored. */
  function Salvar(usuarios: Table<Usuario>, dto: UsuarioDTO): (r: (Table<Usuario>, Response))
    ensures r.1.status == HttpCreated <==> UsuarioService.EmailLivre(usuarios, dto.email)
    ensures r.1.status == HttpCreated ==>
              r.1.body == User(Usuario(Some(usuarios.nextId), dto.nome, dto.email, dto.senha))
    ensures r.1.status != HttpCreated ==>
              r == (usuarios, Response(HttpBadRequest, Text("Já existe um usuário cadastrado com este email.")))
  {
    var usuario := Usuario(None, dto.nome, dto.email, dto.senha);
    var (t', res) := UsuarioService.SalvarUsuario(usuarios, usuario);
    match res
    case Ok(salvo) => (t', Response(HttpCreated, User(salvo)))
    case Err(f) => (usuarios, BadRequest(f))
  }

  /** `POST /autenticar`: 200 with the stored user whose email and password
      are the DTO's; otherwise 400 with the authentication message, which
      tells an unknown email from a wrong password. */
  function Autenticar(usuarios: Table<Usuario>, dto: UsuarioDTO): (r: Response)
    ensures r.status == HttpOk <==> UsuarioService.Autenticar(usuarios, dto.email, dto.senha).Ok?
    ensures r.status == HttpOk ==>
              r.body.User? && r.body.usuario in usuarios.rows
              && r.body.usuario.email == dto.email && r.body.usuario.senha == dto.senha
    ensures UsuarioService.EmailLivre(usuarios, dto.email) ==>
              r == Response(HttpBadRequest, Text("Usuário não encontrado para o email informado."))
    ensures !UsuarioService.EmailLivre(usuarios, dto.email) && r.status != HttpOk ==>
              r == Response(HttpBadRequest, Text("Senha inválida."))
  {
    match UsuarioService.Autenticar(usuarios, dto.email, dto.senha)
    case Ok(u) => Response(HttpOk, User(u))
    case Err(f) => BadRequest(f)
  }

  /** `GET /{id}/saldo`: 404 without a body for an unknown user, no balance
      being computed; otherwise 200 with the user's balance. */
  function ObterSaldo(usuarios: Table<Usuario>, lancamentos: Table<Lancamento>, id: int): (r: Response)
    ensures r == Response(HttpNotFound, NoBody) <==> FindById(usuarios, UsuarioId, id).None?
    ensures FindById(usuarios, UsuarioId, id).Some? ==>
              r == Response(HttpOk, Amount(LancamentoService.ObterSaldoPorUsuario(lancamentos, id)))
  {
    match FindById(usuarios, UsuarioId, id)
    case None => Response(HttpNotFound, NoBody)
    case Some(_) => Response(HttpOk, Amount(LancamentoService.ObterSaldoPorUsuario(lancamentos, id)))
  }

  /** Registering and then authenticating with the same email and password
      answers 200 with the user just stored, and registering the email a
      second time answers 400. */
  lemma SalvarThenAutenticar(usuarios: Table<Usuario>, dto: UsuarioDTO, outro: UsuarioDTO)
    requires UsuarioService.EmailsUnicos(usuarios)
    requires outro.email == dto.email
    ensures var (t', res) := Salvar(usuarios, dto);
            res.status == HttpCreated ==>
              && Autenticar(t', dto) == Response(HttpOk, res.body)
              && Salvar(t', outro).1.status == HttpBadRequest
  {
    var usuario := Usuario(None, dto.nome, dto.email, dto.senha);
    UsuarioService.SalvarUsuarioKeepsEmailsUnicos(usuarios, usuario);
    var (t', res) := Salvar(usuarios, dto);
    if res.status == HttpCreated {
      var salvo := res.body.usuario;
      assert FindByEmail(t', dto.email) == Some(salvo);
    }
  }
}
