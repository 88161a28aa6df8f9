/** Entities, enumerations and failures of the ledger ("minhas finanças").
    Nullable Java fields are `Option`s; `BigDecimal` is `real` (exact);
    `LocalDate` is an opaque day number. */
module Model {

  datatype Option<+T> = None | Some(value: T)

  /** A call either returns a value or throws one of the exceptions below. */
  datatype Result<+T> = Ok(value: T) | Err(error: Failure)

  /** TipoLancamento: income or expense. */
  datatype Tipo = Receita | Despesa

  /** StatusLancamento. */
  datatype Status = Pendente | Efetivado | Cancelado

  /** The registration date; never inspected by the core. */
  type Date = int

  datatype Usuario = Usuario(
    id: Option<int>,
    nome: Option<string>,
    email: Option<string>,
    senha: Option<string>)

  datatype Lancamento = Lancamento(
    id: Option<int>,
    descricao: Option<string>,
    mes: Option<int>,
    ano: Option<int>,
    usuario: Option<Usuario>,
    valor: Option<real>,
    dataCadastro: Option<Date>,
    tipo: Option<Tipo>,
    status: Option<Status>)

  /** `new Lancamento()`: every field null. */
  const Vazio: Lancamento := Lancamento(None, None, None, None, None, None, None, None, None)

  /** `new Usuario()`: every field null. */
  const UsuarioVazio: Usuario := Usuario(None, None, None, None)

  function LancamentoId(l: Lancamento): Option<int> { l.id }

  function UsuarioId(u: Usuario): Option<int> { u.id }

  /** `setId(k)`, as the repository does when it assigns an id. */
  function WithLancamentoId(l: Lancamento, k: int): Lancamento { l.(id := Some(k)) }

  function WithUsuarioId(u: Usuario, k: int): Usuario { u.(id := Some(k)) }

  /** The six checks of `validar`, in the order they run. */
  datatype Check =
    | DescricaoValida
    | MesValido
    | AnoValido
    | UsuarioInformado
    | ValorValido
    | TipoInformado

  /** What a business rule refused. */
  datatype Rule =
    | Invalido(check: Check)          // thrown by validar
    | EmailJaCadastrado               // thrown by validarEmail
    | UsuarioNaoEncontradoParaId      // thrown by the controller's converter

  datatype AuthCause = EmailNaoEncontrado | SenhaInvalida

  /** The exception classes the core throws. */
  datatype Failure =
    | RegraNegocio(rule: Rule)        // RegraNegocioException
    | ErroAutenticacao(cause: AuthCause)
    | NullPointer                     // missing id on atualizar/deletar, null enum name
    | IllegalArgument                 // unknown enum name, lookup by a null id

  /** `getMessage()` of the two exception classes the controllers catch. */
  function Message(f: Failure): (m: string)
    requires f.RegraNegocio? || f.ErroAutenticacao?
    ensures m != []
  {
    match f
    case RegraNegocio(Invalido(DescricaoValida)) => "Informe uma descrição válida."
    case RegraNegocio(Invalido(MesValido)) => "Informe um mês válido."
    case RegraNegocio(Invalido(AnoValido)) => "Informe um ano válido."
    case RegraNegocio(Invalido(UsuarioInformado)) => "Informe um usuário."
    case RegraNegocio(Invalido(ValorValido)) => "Informe um valor válido."
    case RegraNegocio(Invalido(TipoInformado)) => "Informe um tipo de lançamento."
    case RegraNegocio(EmailJaCadastrado) => "Já existe um usuário cadastrado com este email."
    case RegraNegocio(UsuarioNaoEncontradoParaId) => "Usuario não encontrado para Id informado."
    case ErroAutenticacao(EmailNaoEncontrado) => "Usuário não encontrado para o email informado."
    case ErroAutenticacao(SenhaInvalida) => "Senha inválida."
  }

  /** Different exceptions carry different messages, so a 400 body names
      exactly which check or rule failed. */
  lemma MessageDeterminesFailure(f: Failure, g: Failure)
    requires f.RegraNegocio? || f.ErroAutenticacao?
    requires g.RegraNegocio? || g.ErroAutenticacao?
    ensures Message(f) == Message(g) ==> f == g
  {
  }

  function TipoName(t: Tipo): string
  {
    match t
    case Receita => "RECEITA"
    case Despesa => "DESPESA"
  }

  function StatusName(s: Status): string
  {
    match s
    case Pendente => "PENDENTE"
    case Efetivado => "EFETIVADO"
    case Cancelado => "CANCELADO"
  }

  /** `TipoLancamento.valueOf(name)`: exact, case-sensitive constant name;
      a null name throws NullPointerException, any other name IllegalArgumentException. */
  function TipoValueOf(name: Option<string>): (r: Result<Tipo>)
    ensures forall t :: name == Some(TipoName(t)) ==> r == Ok(t)
    ensures r.Ok? ==> name == Some(TipoName(r.value))
    ensures name.None? ==> r == Err(NullPointer)
    ensures name.Some? && r.Err? ==> r == Err(IllegalArgument)
  {
    match name
    case None => Err(NullPointer)
    case Some(n) =>
      if n == "RECEITA" then Ok(Receita)
      else if n == "DESPESA" then Ok(Despesa)
      else Err(IllegalArgument)
  }

  /** `StatusLancamento.valueOf(name)`, with the same exceptions. */
  function StatusValueOf(name: Option<string>): (r: Result<Status>)
    ensures forall s :: name == Some(StatusName(s)) ==> r == Ok(s)
    ensures r.Ok? ==> name == Some(StatusName(r.value))
    ensures name.None? ==> r == Err(NullPointer)
    ensures name.Some? && r.Err? ==> r == Err(IllegalArgument)
  {
    match name
    case None => Err(NullPointer)
    case Some(n) =>
      if n == "PENDENTE" then Ok(Pendente)
      else if n == "EFETIVADO" then Ok(Efetivado)
      else if n == "CANCELADO" then Ok(Cancelado)
      else Err(IllegalArgument)
  }
}
