/** `LancamentoServiceImpl` and `UsuarioServiceImpl`: the services as
    objects over a repository object. Each operation is proved to return
    what the matching function of `LancamentoService`, `UsuarioService` or
    the repository returns on the repository's state, and each one that
    changes state states in its call log which `save` and `delete` calls it
    issued. */
module ServiceImpl {
  import opened Model
  import opened Tables
  import opened Validation
  import opened Repositories
  import Balance
  import LancamentoService
  import UsuarioService

  class LancamentoServiceImpl {
    const repository: LancamentoRepository

    ghost predicate Valid()
      reads this, repository
    {
      && repository.Valid()
      && repository.idOf == LancamentoId
      && repository.stamp == WithLancamentoId
    }

    constructor (repository: LancamentoRepository)
      requires repository.Valid()
      requires repository.idOf == LancamentoId && repository.stamp == WithLancamentoId
      ensures Valid() && this.repository == repository
    {
      this.repository := repository;
    }

    /** `salvar`: `save` is called once, with the PENDENTE entry, when
        validation passes, and never otherwise. */
    method Salvar(l: Lancamento) returns (r: Result<Lancamento>)
      requires Valid()
      modifies repository
      ensures Valid()
      ensures (repository.Value(), r) == LancamentoService.Salvar(old(repository.Value()), l)
      ensures r.Err? ==> repository.calls == old(repository.calls)
      ensures r.Ok? ==> repository.calls == old(repository.calls) + [SaveCall(l.(status := Some(Pendente)))]
    {
      match Validar(l)
      case Fail(c) =>
        r := Err(LancamentoService.ErroValidacao(c));
      case Pass =>
        var saved := repository.Save(l.(status := Some(Pendente)));
        r := Ok(saved);
    }

    /** `atualizar`: `save` is called once when the entry has an id and
        passes validation, and never otherwise. */
    method Atualizar(l: Lancamento) returns (r: Result<Lancamento>)
      requires Valid()
      modifies repository
      ensures Valid()
      ensures (repository.Value(), r) == LancamentoService.Atualizar(old(repository.Value()), l)
      ensures r.Err? ==> repository.calls == old(repository.calls)
      ensures r.Ok? ==> repository.calls == old(repository.calls) + [SaveCall(l)]
    {
      if l.id.None? {
        return Err(NullPointer);
      }
      match Validar(l)
      case Fail(c) =>
        r := Err(LancamentoService.ErroValidacao(c));
      case Pass =>
        var saved := repository.Save(l);
        r := Ok(saved);
    }

    /** `deletar`: `delete` is called once when the entry has an id, and
        never otherwise. */
    method Deletar(l: Lancamento) returns (r: Result<()>)
      requires Valid()
      modifies repository
      ensures Valid()
      ensures (repository.Value(), r) == LancamentoService.Deletar(old(repository.Value()), l)
      ensures r.Err? ==> repository.calls == old(repository.calls)
      ensures r.Ok? ==> repository.calls == old(repository.calls) + [DeleteCall(l)]
    {
      if l.id.None? {
        return Err(NullPointer);
      }
      repository.Delete(l);
      r := Ok(());
    }

    /** `atualizarStatus`: the caller's entry leaves with the new status
        (`updated`), and that entry is what `atualizar` receives. */
    method AtualizarStatus(l: Lancamento, s: Status) returns (updated: Lancamento, r: Result<Lancamento>)
      requires Valid()
      modifies repository
      ensures Valid()
      ensures (updated, repository.Value(), r) == LancamentoService.AtualizarStatus(old(repository.Value()), l, s)
      ensures r.Err? ==> repository.calls == old(repository.calls)
      ensures r.Ok? ==> repository.calls == old(repository.calls) + [SaveCall(updated)]
    {
      updated := l.(status := Some(s));
      r := Atualizar(updated);
    }

    /** `buscar`: the repository's list for the filter, that is, exactly the
        stored entries matching it, each once and in storage order. */
    method Buscar(filtro: Lancamento) returns (r: seq<Lancamento>)
      ensures r == FindAll(repository.Value(), filtro)
      ensures forall i :: 0 <= i < |r| ==> r[i] in repository.rows && LancamentoMatches(filtro, r[i])
      ensures forall i :: 0 <= i < |repository.rows| && LancamentoMatches(filtro, repository.rows[i]) ==>
                repository.rows[i] in r
    {
      r := FindAll(repository.Value(), filtro);
    }

    /** `obterPorId`: present exactly when a stored entry has the id. */
    method ObterPorId(id: int) returns (r: Option<Lancamento>)
      ensures r == FindById(repository.Value(), LancamentoId, id)
      ensures r.Some? ==> r.value in repository.rows && r.value.id == Some(id)
      ensures r.None? <==> forall i :: 0 <= i < |repository.rows| ==> repository.rows[i].id != Some(id)
    {
      r := FindById(repository.Value(), LancamentoId, id);
    }

    /** `obterSaldoPorUsuario`: the two sum queries, a null sum counting as
        zero, income minus expense. */
    method ObterSaldoPorUsuario(idUsuario: int) returns (saldo: real)
      ensures saldo == LancamentoService.ObterSaldoPorUsuario(repository.Value(), idUsuario)
      ensures saldo == Balance.Sum(Balance.Valores(repository.rows, idUsuario, Receita))
                       - Balance.Sum(Balance.Valores(repository.rows, idUsuario, Despesa))
    {
      var receitas := Balance.Soma(repository.rows, idUsuario, Receita);
      var despesas := Balance.Soma(repository.rows, idUsuario, Despesa);
      saldo := Balance.OrZero(receitas) - Balance.OrZero(despesas);
    }
  }

  class UsuarioServiceImpl {
    const repository: UsuarioRepository

    ghost predicate Valid()
      reads this, repository
    {
      && repository.Valid()
      && repository.idOf == UsuarioId
      && repository.stamp == WithUsuarioId
    }

    constructor (repository: UsuarioRepository)
      requires repository.Valid()
      requires repository.idOf == UsuarioId && repository.stamp == WithUsuarioId
      ensures Valid() && this.repository == repository
    {
      this.repository := repository;
    }

    /** `validarEmail`: `existsByEmail`, and the business-rule error when it
        holds. */
    method ValidarEmail(email: Option<string>) returns (r: Result<()>)
      ensures r == UsuarioService.ValidarEmail(repository.Value(), email)
      ensures r.Ok? <==> forall i :: 0 <= i < |repository.rows| ==> repository.rows[i].email != email
    {
      if ExistsByEmail(repository.Value(), email) {
        r := Err(RegraNegocio(EmailJaCadastrado));
      } else {
        r := Ok(());
      }
    }

    /** `autenticar`: `findByEmail`, then an exact password comparison. */
    method Autenticar(email: Option<string>, senha: Option<string>) returns (r: Result<Usuario>)
      ensures r == UsuarioService.Autenticar(repository.Value(), email, senha)
      ensures r.Ok? ==> r.value in repository.rows && r.value.email == email && r.value.senha == senha
    {
      var usuario := FindByEmail(repository.Value(), email);
      if usuario.None? {
        return Err(ErroAutenticacao(EmailNaoEncontrado));
      }
      if usuario.value.senha != senha {
        return Err(ErroAutenticacao(SenhaInvalida));
      }
      r := Ok(usuario.value);
    }

    /** `salvarUsuario`: `save` is called once when the email is free, and
        never otherwise. */
    method SalvarUsuario(u: Usuario) returns (r: Result<Usuario>)
      requires Valid()
      modifies repository
      ensures Valid()
      ensures (repository.Value(), r) == UsuarioService.SalvarUsuario(old(repository.Value()), u)
      ensures r.Err? ==> repository.calls == old(repository.calls)
      ensures r.Ok? ==> repository.calls == old(repository.calls) + [SaveCall(u)]
    {
      var valido := ValidarEmail(u.email);
      if valido.Err? {
        return Err(valido.error);
      }
      var saved := repository.Save(u);
      r := Ok(saved);
    }

    /** `obterPorId`: present exactly when a stored user has the id. */
    method ObterPorId(id: int) returns (r: Option<Usuario>)
      ensures r == FindById(repository.Value(), UsuarioId, id)
      ensures r.Some? ==> r.value in repository.rows && r.value.id == Some(id)
      ensures r.None? <==> forall i :: 0 <= i < |repository.rows| ==> repository.rows[i].id != Some(id)
    {
      r := FindById(repository.Value(), UsuarioId, id);
    }
  }

  /** The entry service tests' scenarios against the objects: a refused
      call leaves the call log as it was, a successful one adds one call. */
  method LancamentoScenario(l: Lancamento)
    requires l.id.None?
  {
    var lancamentos := new Repository<Lancamento>(LancamentoId, WithLancamentoId);
    var service := new LancamentoServiceImpl(lancamentos);
    var r := service.Atualizar(l);
    assert r == Err(NullPointer) && lancamentos.calls == [];
    var d := service.Deletar(l);
    assert d == Err(NullPointer) && lancamentos.calls == [];
    var salvo := service.Salvar(l);
    if salvo.Ok? {
      assert salvo.value.id == Some(1) && salvo.value.status == Some(Pendente);
      assert lancamentos.calls == [SaveCall(l.(status := Some(Pendente)))];
    } else {
      assert lancamentos.calls == [];
    }
  }

  /** The user service tests' scenarios: a second user with a taken email
      is refused without a `save`, and the first one authenticates. */
  method UsuarioScenario(u: Usuario)
    requires u.id.None?
  {
    var usuarios := new Repository<Usuario>(UsuarioId, WithUsuarioId);
    var service := new UsuarioServiceImpl(usuarios);
    var salvo := service.SalvarUsuario(u);
    assert salvo == Ok(u.(id := Some(1)));
    assert usuarios.rows == [u.(id := Some(1))];
    var again := service.SalvarUsuario(u.(nome := Some("outro")));
    assert again == Err(RegraNegocio(EmailJaCadastrado)) by {
      assert usuarios.rows[0].email == u.email;
    }
    assert usuarios.calls == [SaveCall(u)];
    var auth := service.Autenticar(u.email, u.senha);
    assert auth == Ok(u.(id := Some(1)));
  }
}
