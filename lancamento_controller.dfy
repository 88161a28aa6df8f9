/** `LancamentoController` (`/api/lancamentos`): each endpoint as a function
    of the stored users and entries, returning the entry table afterwards
    and the response, or the exception that escapes the handler. Only
    `RegraNegocioException` is caught. */
module LancamentoController {
  import opened Model
  import opened Tables
  import opened Validation
  import opened Repositories
  import opened Responses
  import LancamentoService
  import Balance

  /** `LancamentoDTO`: the request body; the user is given by id and the
      type and status by their constant names. */
  datatype LancamentoDTO = LancamentoDTO(
    id: Option<int>,
    descricao: Option<string>,
    mes: Option<int>,
    ano: Option<int>,
    valor: Option<real>,
    usuario: Option<int>,
    tipo: Option<string>,
    status: Option<string>)

  const NaoEncontrado := "Lançamento não encontrado na base de dados."

  const ConsultaSemUsuario := "Não foi possível realizar a consulta. Usuário não encontrado para o Id informado."

  /** The `catch (RegraNegocioException e)` of the handlers: a business-rule
      error becomes 400 with its message; any other exception escapes. */
  function Catch(f: Failure): (r: Result<Response>)
    ensures f.RegraNegocio? ==> r == Ok(BadRequest(f))
    ensures !f.RegraNegocio? ==> r == Err(f)
  {
    if f.RegraNegocio? then Ok(BadRequest(f)) else Err(f)
  }

  /** `valueOf` applied only to a non-null name, as the converter does:
      `None` when the name is null. */
  function TipoOpcional(name: Option<string>): (r: Result<Option<Tipo>>)
    ensures name.None? ==> r == Ok(None)
    ensures name.Some? ==> r.Ok? == TipoValueOf(name).Ok?
    ensures r.Ok? && r.value.Some? ==> name == Some(TipoName(r.value.value))
    ensures r.Err? ==> r.error == IllegalArgument
  {
    if name.None? then Ok(None)
    else match TipoValueOf(name)
      case Ok(t) => Ok(Some(t))
      case Err(f) => Err(f)
  }

  function StatusOpcional(name: Option<string>): (r: Result<Option<Status>>)
    ensures name.None? ==> r == Ok(None)
    ensures name.Some? ==> r.Ok? == StatusValueOf(name).Ok?
    ensures r.Ok? && r.value.Some? ==> name == Some(StatusName(r.value.value))
    ensures r.Err? ==> r.error == IllegalArgument
  {
    if name.None? then Ok(None)
    else match StatusValueOf(name)
      case Ok(s) => Ok(Some(s))
      case Err(f) => Err(f)
  }

  /** `converter`: copies id, description, year, month and value, looks the
      user up by id, and sets type and status only from non-null names; the
      registration date stays null. A null user id makes the lookup throw
      IllegalArgumentException, an unknown one the business-rule error, and
      a name that is no constant IllegalArgumentException. */
  function Converter(usuarios: Table<Usuario>, dto: LancamentoDTO): (r: Result<Lancamento>)
    ensures r.Ok? <==>
              && dto.usuario.Some? && FindById(usuarios, UsuarioId, dto.usuario.value).Some?
              && TipoOpcional(dto.tipo).Ok? && StatusOpcional(dto.status).Ok?
    ensures dto.usuario.None? ==> r == Err(IllegalArgument)
    ensures dto.usuario.Some? && FindById(usuarios, UsuarioId, dto.usuario.value).None? ==>
              r == Err(RegraNegocio(UsuarioNaoEncontradoParaId))
    ensures r.Err? ==> r.error == IllegalArgument || r.error == RegraNegocio(UsuarioNaoEncontradoParaId)
    ensures r.Ok? ==>
              && r.value.id == dto.id && r.value.descricao == dto.descricao
              && r.value.mes == dto.mes && r.value.ano == dto.ano && r.value.valor == dto.valor
              && r.value.usuario.Some? && r.value.usuario.value in usuarios.rows
              && r.value.usuario.value.id == dto.usuario
              && r.value.dataCadastro.None?
              && (r.value.tipo.None? <==> dto.tipo.None?)
              && (r.value.tipo.Some? ==> dto.tipo == Some(TipoName(r.value.tipo.value)))
              && (r.value.status.None? <==> dto.status.None?)
              && (r.value.status.Some? ==> dto.status == Some(StatusName(r.value.status.value)))
  {
    if dto.usuario.None? then Err(IllegalArgument)
    else match FindById(usuarios, UsuarioId, dto.usuario.value)
      case None => Err(RegraNegocio(UsuarioNaoEncontradoParaId))
      case Some(u) =>
        match TipoOpcional(dto.tipo)
        case Err(f) => Err(f)
        case Ok(tipo) =>
          match StatusOpcional(dto.status)
          case Err(f) => Err(f)
          case Ok(status) =>
            Ok(Lancamento(dto.id, dto.descricao, dto.mes, dto.ano, Some(u), dto.valor, None, tipo, status))
  }

  /** `POST`: 201 with the saved entry when the DTO converts and the entry
      passes validation; otherwise 400 with the business-rule message and
      nothing stored. */
  function Salvar(lancamentos: Table<Lancamento>, usuarios: Table<Usuario>, dto: LancamentoDTO): (r: (Table<Lancamento>, Result<Response>))
    ensures (r.1.Ok? && r.1.value.status == HttpCreated) <==>
              Converter(usuarios, dto).Ok? && Validar(Converter(usuarios, dto).value).Pass?
    ensures r.1.Ok? && r.1.value.status == HttpCreated ==>
              && r.1.value.body.Entry?
              && var e := r.1.value.body.lancamento;
                 e.id.Some? && e == Converter(usuarios, dto).value.(id := e.id, status := Some(Pendente))
    ensures !(r.1.Ok? && r.1.value.status == HttpCreated) ==> r.0 == lancamentos
    ensures Converter(usuarios, dto) == Err(RegraNegocio(UsuarioNaoEncontradoParaId)) ==>
              r.1 == Ok(Response(HttpBadRequest, Text("Usuario não encontrado para Id informado.")))
    ensures Converter(usuarios, dto).Ok? && Validar(Converter(usuarios, dto).value).Fail? ==>
              r.1 == Ok(BadRequest(RegraNegocio(Invalido(Validar(Converter(usuarios, dto).value).check))))
    ensures Converter(usuarios, dto).Err? && !Converter(usuarios, dto).error.RegraNegocio? ==>
              r.1 == Err(Converter(usuarios, dto).error)
    ensures r.1.Err? ==> r.1.error == IllegalArgument
  {
    match Converter(usuarios, dto)
    case Err(f) => (lancamentos, Catch(f))
    case Ok(l) =>
      var (t', res) := LancamentoService.Salvar(lancamentos, l);
      match res
      case Ok(saved) => (t', Ok(Response(HttpCreated, Entry(saved))))
      case Err(f) => (lancamentos, Catch(f))
  }

  /** `PUT /{id}`: an unknown id answers 400 "not found" and changes
      nothing; otherwise the converted entry takes the stored entry's id
      and is updated, answering 200 with it, or 400 on a business-rule error. */
  function Atualizar(lancamentos: Table<Lancamento>, usuarios: Table<Usuario>, id: int, dto: LancamentoDTO): (r: (Table<Lancamento>, Result<Response>))
    ensures FindById(lancamentos, LancamentoId, id).None? ==>
              r == (lancamentos, Ok(Response(HttpBadRequest, Text(NaoEncontrado))))
    ensures (r.1.Ok? && r.1.value.status == HttpOk) <==>
              && FindById(lancamentos, LancamentoId, id).Some?
              && Converter(usuarios, dto).Ok? && Validar(Converter(usuarios, dto).value).Pass?
    ensures r.1.Ok? && r.1.value.status == HttpOk ==>
              r.1.value.body == Entry(Converter(usuarios, dto).value.(id := Some(id)))
    ensures FindById(lancamentos, LancamentoId, id).Some? && Converter(usuarios, dto).Err? ==>
              r.1 == if Converter(usuarios, dto).error.RegraNegocio?
                     then Ok(BadRequest(Converter(usuarios, dto).error))
                     else Err(Converter(usuarios, dto).error)
    ensures FindById(lancamentos, LancamentoId, id).Some? && Converter(usuarios, dto).Ok?
            && Validar(Converter(usuarios, dto).value).Fail? ==>
              r.1 == Ok(BadRequest(RegraNegocio(Invalido(Validar(Converter(usuarios, dto).value).check))))
    ensures !(r.1.Ok? && r.1.value.status == HttpOk) ==> r.0 == lancamentos
    ensures r.1.Err? ==> r.1.error == IllegalArgument
  {
    match FindById(lancamentos, LancamentoId, id)
    case None => (lancamentos, Ok(Response(HttpBadRequest, Text(NaoEncontrado))))
    case Some(entity) =>
      match Converter(usuarios, dto)
      case Err(f) => (lancamentos, Catch(f))
      case Ok(l) =>
        var l' := l.(id := entity.id);
        ValidarIgnoresIdDateAndStatus(l, entity.id, l.dataCadastro, l.status);
        var (t', res) := LancamentoService.Atualizar(lancamentos, l');
        match res
        case Err(f) => (lancamentos, Catch(f))
        case Ok(_) => (t', Ok(Response(HttpOk, Entry(l'))))
  }

  /** `DELETE /{id}`: an unknown id answers 400 "not found" and changes
      nothing; otherwise the stored entry is deleted and the answer is 204. */
  function Deletar(lancamentos: Table<Lancamento>, id: int): (r: (Table<Lancamento>, Result<Response>))
    ensures r.1.Ok?
    ensures r.1.value.status == HttpNoContent <==> FindById(lancamentos, LancamentoId, id).Some?
    ensures r.1.value.status == HttpNoContent ==>
              r.0 == DeleteById(lancamentos, LancamentoId, id) && r.1.value.body == NoBody
    ensures r.1.value.status != HttpNoContent ==>
              r == (lancamentos, Ok(Response(HttpBadRequest, Text(NaoEncontrado))))
  {
    match FindById(lancamentos, LancamentoId, id)
    case None => (lancamentos, Ok(Response(HttpBadRequest, Text(NaoEncontrado))))
    case Some(entidade) =>
      var (t', _) := LancamentoService.Deletar(lancamentos, entidade);
      (t', Ok(Response(HttpNoContent, NoBody)))
  }

  /** The filter `buscar` builds: description, month and year as given,
      and the user. */
  function Filtro(descricao: Option<string>, mes: Option<int>, ano: Option<int>, u: Usuario): Lancamento
  {
    Vazio.(descricao := descricao, mes := mes, ano := ano, usuario := Some(u))
  }

  /** `GET`: an unknown user answers 400 without searching; otherwise 200
      with exactly the stored entries of that user whose description, month
      and year equal the given ones, where given. */
  function Buscar(lancamentos: Table<Lancamento>, usuarios: Table<Usuario>,
                  descricao: Option<string>, mes: Option<int>, ano: Option<int>, idUsuario: int): (r: Response)
    ensures r.status == HttpBadRequest <==> FindById(usuarios, UsuarioId, idUsuario).None?
    ensures r.status == HttpBadRequest ==> r.body == Text(ConsultaSemUsuario)
    ensures r.status != HttpBadRequest ==> r.status == HttpOk && r.body.Entries?
    ensures r.body.Entries? ==>
              var found := r.body.lancamentos;
              && (forall i :: 0 <= i < |found| ==>
                    && found[i] in lancamentos.rows
                    && found[i].usuario.Some? && found[i].usuario.value.id == Some(idUsuario)
                    && (descricao.Some? ==> found[i].descricao == descricao)
                    && (mes.Some? ==> found[i].mes == mes)
                    && (ano.Some? ==> found[i].ano == ano))
              && var probe := Filtro(descricao, mes, ano, FindById(usuarios, UsuarioId, idUsuario).value);
                 forall i :: 0 <= i < |lancamentos.rows| && LancamentoMatches(probe, lancamentos.rows[i]) ==>
                   lancamentos.rows[i] in found
    ensures r.body.Entries? ==>
              var probe := Filtro(descricao, mes, ano, FindById(usuarios, UsuarioId, idUsuario).value);
              forall x :: multiset(r.body.lancamentos)[x] ==
                            if LancamentoMatches(probe, x) then multiset(lancamentos.rows)[x] else 0
  {
    match FindById(usuarios, UsuarioId, idUsuario)
    case None => Response(HttpBadRequest, Text(ConsultaSemUsuario))
    case Some(u) => Response(HttpOk, Entries(FindAll(lancamentos, Filtro(descricao, mes, ano, u))))
  }

  /** `PUT /{id}/atualiza-status`: an unknown id answers 400 "not found";
      a null or unknown status name makes `valueOf` throw, and the exception
      escapes; otherwise the stored entry with the new status is updated,
      answering 200 with it, or 400 on a business-rule error. `valueOf`
      never returns null, so the handler's null check is never taken. */
  function AtualizarStatus(lancamentos: Table<Lancamento>, id: int, status: Option<string>): (r: (Table<Lancamento>, Result<Response>))
    ensures FindById(lancamentos, LancamentoId, id).None? ==>
              r == (lancamentos, Ok(Response(HttpBadRequest, Text(NaoEncontrado))))
    ensures FindById(lancamentos, LancamentoId, id).Some? && StatusValueOf(status).Err? ==>
              r == (lancamentos, Err(StatusValueOf(status).error))
    ensures (r.1.Ok? && r.1.value.status == HttpOk) <==>
              && FindById(lancamentos, LancamentoId, id).Some? && StatusValueOf(status).Ok?
              && Validar(FindById(lancamentos, LancamentoId, id).value).Pass?
    ensures r.1.Ok? && r.1.value.status == HttpOk ==>
              && r.1.value.body.Entry?
              && r.1.value.body.lancamento.status.Some?
              && status == Some(StatusName(r.1.value.body.lancamento.status.value))
              && r.1.value.body.lancamento == FindById(lancamentos, LancamentoId, id).value.(status := r.1.value.body.lancamento.status)
    ensures FindById(lancamentos, LancamentoId, id).Some? && StatusValueOf(status).Ok?
            && Validar(FindById(lancamentos, LancamentoId, id).value).Fail? ==>
              r.1 == Ok(BadRequest(RegraNegocio(Invalido(Validar(FindById(lancamentos, LancamentoId, id).value).check))))
    ensures !(r.1.Ok? && r.1.value.status == HttpOk) ==> r.0 == lancamentos
  {
    match FindById(lancamentos, LancamentoId, id)
    case None => (lancamentos, Ok(Response(HttpBadRequest, Text(NaoEncontrado))))
    case Some(entity) =>
      match StatusValueOf(status)
      case Err(f) => (lancamentos, Err(f))
      case Ok(s) =>
        ValidarIgnoresIdDateAndStatus(entity, entity.id, entity.dataCadastro, Some(s));
        var updated := entity.(status := Some(s));
        var (t', res) := LancamentoService.Atualizar(lancamentos, updated);
        match res
        case Err(f) => (lancamentos, Catch(f))
        case Ok(_) => (t', Ok(Response(HttpOk, Entry(updated))))
  }

  /** A 201 from `salvar` leaves the entry stored under its new id. */
  lemma SalvarStores(lancamentos: Table<Lancamento>, usuarios: Table<Usuario>, dto: LancamentoDTO)
    requires WellFormed(lancamentos, LancamentoId)
    ensures var (t', res) := Salvar(lancamentos, usuarios, dto);
            && WellFormed(t', LancamentoId)
            && (res.Ok? && res.value.status == HttpCreated ==>
                  FindById(t', LancamentoId, res.value.body.lancamento.id.value) == Some(res.value.body.lancamento))
  {
    if Converter(usuarios, dto).Ok? {
      var l := Converter(usuarios, dto).value;
      if Validar(l).Pass? {
        var saved := LancamentoService.Salvar(lancamentos, l).1.value;
        LancamentoService.SalvarStores(lancamentos, l, saved.id.value);
      }
    }
  }

  /** A 200 from `atualizar` overwrites the row of that id with the answered
      entry: no row is added or removed, and every other id finds what it
      found before. */
  lemma AtualizarOverwrites(lancamentos: Table<Lancamento>, usuarios: Table<Usuario>, id: int, dto: LancamentoDTO, k: int)
    requires WellFormed(lancamentos, LancamentoId)
    ensures var (t', res) := Atualizar(lancamentos, usuarios, id, dto);
            && WellFormed(t', LancamentoId)
            && (res.Ok? && res.value.status == HttpOk ==>
                  && |t'.rows| == |lancamentos.rows|
                  && FindById(t', LancamentoId, k) ==
                       if k == id then Some(res.value.body.lancamento) else FindById(lancamentos, LancamentoId, k))
  {
    if FindById(lancamentos, LancamentoId, id).Some? && Converter(usuarios, dto).Ok? {
      var l' := Converter(usuarios, dto).value.(id := Some(id));
      LancamentoService.AtualizarStores(lancamentos, l', k);
    }
  }

  /** A 204 from `deletar` leaves nothing under that id and every other id
      as it was. */
  lemma DeletarRemoves(lancamentos: Table<Lancamento>, id: int, k: int)
    requires WellFormed(lancamentos, LancamentoId)
    ensures var (t', res) := Deletar(lancamentos, id);
            && WellFormed(t', LancamentoId)
            && FindById(t', LancamentoId, k) == if k == id then None else FindById(lancamentos, LancamentoId, k)
  {
    DeleteFound(lancamentos, LancamentoId, id, k);
  }

  /** A 200 from `atualizarStatus` leaves the stored entry with the new
      status and changes no user's balance. */
  lemma AtualizarStatusKeepsSaldo(lancamentos: Table<Lancamento>, id: int, status: Option<string>, idUsuario: int)
    requires WellFormed(lancamentos, LancamentoId)
    ensures var (t', res) := AtualizarStatus(lancamentos, id, status);
            res.Ok? && res.value.status == HttpOk ==>
              && FindById(t', LancamentoId, id) == Some(res.value.body.lancamento)
              && Balance.Saldo(t'.rows, idUsuario) == Balance.Saldo(lancamentos.rows, idUsuario)
  {
    var found := FindById(lancamentos, LancamentoId, id);
    if found.Some? && StatusValueOf(status).Ok? {
      var i := IndexOf(lancamentos.rows, LancamentoId, id).value;
      FindAt(lancamentos, LancamentoId, i);
      LancamentoService.AtualizarStatusKeepsSaldo(lancamentos, found.value, StatusValueOf(status).value, idUsuario, Receita);
    }
  }
}
