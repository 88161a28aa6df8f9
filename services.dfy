/** `LancamentoService`: the entry operations as functions of the entry
    table. Each returns the table after the call and what the call returned
    or threw. */
module LancamentoService {
  import opened Model
  import opened Tables
  import opened Validation
  import opened Repositories
  import Balance

  /** The exception `validar` throws for a failed check. */
  function ErroValidacao(c: Check): (f: Failure)
    ensures f.RegraNegocio? && f.rule.Invalido? && f.rule.check == c
  {
    RegraNegocio(Invalido(c))
  }

  /** `salvar`: validates, marks the entry PENDENTE and saves it. On a
      validation failure the error propagates and nothing is stored. */
  function Salvar(t: Table<Lancamento>, l: Lancamento): (r: (Table<Lancamento>, Result<Lancamento>))
    ensures r.1.Ok? <==> Validar(l).Pass?
    ensures r.1.Err? ==> r.0 == t && r.1.error == ErroValidacao(Validar(l).check)
    ensures r.1.Ok? ==> r.1.value.id.Some? && r.1.value == l.(id := r.1.value.id, status := Some(Pendente))
    ensures r.1.Ok? && l.id.None? ==> r.1.value.id == Some(t.nextId)
  {
    match Validar(l)
    case Fail(c) => (t, Err(ErroValidacao(c)))
    case Pass =>
      var (t', saved) := SaveLancamento(t, l.(status := Some(Pendente)));
      (t', Ok(saved))
  }

  /** `atualizar`: an entry without an id throws NullPointerException before
      anything else; otherwise it is validated and saved, keeping its status. */
  function Atualizar(t: Table<Lancamento>, l: Lancamento): (r: (Table<Lancamento>, Result<Lancamento>))
    ensures l.id.None? ==> r == (t, Err(NullPointer))
    ensures l.id.Some? && Validar(l).Fail? ==> r == (t, Err(ErroValidacao(Validar(l).check)))
    ensures r.1.Ok? <==> l.id.Some? && Validar(l).Pass?
    ensures r.1.Ok? ==> r.1.value.id.Some? && r.1.value == l.(id := r.1.value.id)
    ensures r.1.Ok? && FindById(t, LancamentoId, l.id.value).Some? ==>
              r.1.value == l && |r.0.rows| == |t.rows| && r.0.nextId == t.nextId
  {
    if l.id.None? then (t, Err(NullPointer))
    else
      match Validar(l)
      case Fail(c) => (t, Err(ErroValidacao(c)))
      case Pass =>
        var (t', saved) := SaveLancamento(t, l);
        (t', Ok(saved))
  }

  /** `deletar`: an entry without an id throws NullPointerException and
      nothing is removed; otherwise its row is deleted. */
  function Deletar(t: Table<Lancamento>, l: Lancamento): (r: (Table<Lancamento>, Result<()>))
    ensures r.1.Ok? <==> l.id.Some?
    ensures l.id.None? ==> r == (t, Err(NullPointer))
    ensures r.1.Ok? ==> r.0 == DeleteById(t, LancamentoId, l.id.value)
  {
    if l.id.None? then (t, Err(NullPointer))
    else (Delete(t, LancamentoId, l), Ok(()))
  }

  /** `atualizarStatus`: sets the status on the given entry and hands it to
      `atualizar`. The entry with its new status is the first component. */
  function AtualizarStatus(t: Table<Lancamento>, l: Lancamento, s: Status): (r: (Lancamento, Table<Lancamento>, Result<Lancamento>))
    ensures r.0 == l.(status := Some(s))
    ensures (r.1, r.2) == Atualizar(t, r.0)
    ensures r.2.Ok? ==> r.2.value.status == Some(s)
  {
    var l' := l.(status := Some(s));
    var (t', res) := Atualizar(t, l');
    (l', t', res)
  }

  /** `obterSaldoPorUsuario`: the balance of one user. */
  function ObterSaldoPorUsuario(t: Table<Lancamento>, idUsuario: int): (r: real)
    ensures r == Balance.Sum(Balance.Valores(t.rows, idUsuario, Receita))
                 - Balance.Sum(Balance.Valores(t.rows, idUsuario, Despesa))
  {
    Balance.Saldo(t.rows, idUsuario)
  }

  /** A successful `salvar` keeps the table well formed and stores the entry
      under its new id; every other id finds what it found before. */
  lemma SalvarStores(t: Table<Lancamento>, l: Lancamento, k: int)
    requires WellFormed(t, LancamentoId)
    ensures var (t', res) := Salvar(t, l);
            && WellFormed(t', LancamentoId)
            && (res.Ok? ==> FindById(t', LancamentoId, k) ==
                              if Some(k) == res.value.id then Some(res.value) else FindById(t, LancamentoId, k))
  {
    if Validar(l).Pass? {
      SaveFound(t, LancamentoId, WithLancamentoId, l.(status := Some(Pendente)), k);
    }
  }

  /** A successful `salvar` of a new entry appends it; so the entry counts
      in its user's sum for its type, raised by its value, and no other
      user's or type's sum changes. */
  lemma SalvarRaisesSoma(t: Table<Lancamento>, l: Lancamento, idUsuario: int, tipo: Tipo)
    requires WellFormed(t, LancamentoId) && l.id.None?
    ensures var (t', res) := Salvar(t, l);
            res.Ok? ==>
              Balance.Soma(t'.rows, idUsuario, tipo) ==
                if Balance.Selected(l, idUsuario, tipo) && l.valor.Some?
                then Some(Balance.OrZero(Balance.Soma(t.rows, idUsuario, tipo)) + l.valor.value)
                else Balance.Soma(t.rows, idUsuario, tipo)
  {
    var (t', res) := Salvar(t, l);
    if res.Ok? {
      assert t'.rows == t.rows + [res.value];
      Balance.SomaAppend(t.rows, res.value, idUsuario, tipo);
    }
  }

  /** A successful `atualizar` keeps the table well formed and the entry is
      then found under its id; every other id finds what it found before. */
  lemma AtualizarStores(t: Table<Lancamento>, l: Lancamento, k: int)
    requires WellFormed(t, LancamentoId)
    ensures var (t', res) := Atualizar(t, l);
            && WellFormed(t', LancamentoId)
            && (res.Ok? ==> FindById(t', LancamentoId, k) ==
                              if Some(k) == res.value.id then Some(res.value) else FindById(t, LancamentoId, k))
  {
    if l.id.Some? && Validar(l).Pass? {
      SaveFound(t, LancamentoId, WithLancamentoId, l, k);
    }
  }

  /** A successful `deletar` keeps the table well formed; the id finds
      nothing afterwards and every other id finds what it found before. */
  lemma DeletarRemoves(t: Table<Lancamento>, l: Lancamento, k: int)
    requires WellFormed(t, LancamentoId)
    ensures var (t', res) := Deletar(t, l);
            && WellFormed(t', LancamentoId)
            && (res.Ok? ==> FindById(t', LancamentoId, k) ==
                              if Some(k) == l.id then None else FindById(t, LancamentoId, k))
  {
    if l.id.Some? {
      DeleteFound(t, LancamentoId, l.id.value, k);
    }
  }

  /** Changing the status of a stored entry: the stored row now carries the
      new status and every other field as before, nothing else is stored
      or removed, and no sum, hence no balance, changes. */
  lemma AtualizarStatusKeepsSaldo(t: Table<Lancamento>, l: Lancamento, s: Status, idUsuario: int, tipo: Tipo)
    requires WellFormed(t, LancamentoId)
    requires l.id.Some? && FindById(t, LancamentoId, l.id.value) == Some(l)
    ensures var (l', t', res) := AtualizarStatus(t, l, s);
            res.Ok? ==>
              && FindById(t', LancamentoId, l.id.value) == Some(l.(status := Some(s)))
              && |t'.rows| == |t.rows|
              && Balance.Soma(t'.rows, idUsuario, tipo) == Balance.Soma(t.rows, idUsuario, tipo)
              && Balance.Saldo(t'.rows, idUsuario) == Balance.Saldo(t.rows, idUsuario)
  {
    var (l', t', res) := AtualizarStatus(t, l, s);
    if res.Ok? {
      AtualizarStores(t, l', l.id.value);
      var p := SaveAt(t, LancamentoId, WithLancamentoId, l');
      assert p < |t.rows|;
      FindAt(t, LancamentoId, p);
      assert t.rows[p] == l;
      assert t'.rows == t.rows[p := l'];
      forall tp: Tipo ensures Balance.Soma(t'.rows, idUsuario, tp) == Balance.Soma(t.rows, idUsuario, tp) {
        Balance.SomaIgnoresStatus(t.rows, p, Some(s), idUsuario, tp);
      }
    }
  }
}

/** `UsuarioService` (`UsuarioService.java`): the user operations as
    functions of the user table. */
module UsuarioService {
  import opened Model
  import opened Tables
  import opened Repositories

  /** The email `validarEmail` checks is taken by no stored user. */
  predicate EmailLivre(t: Table<Usuario>, email: Option<string>)
  {
    forall i :: 0 <= i < |t.rows| ==> t.rows[i].email != email
  }

  /** `validarEmail`: throws the business-rule error exactly when a stored
      user has the email. */
  function ValidarEmail(t: Table<Usuario>, email: Option<string>): (r: Result<()>)
    ensures r.Ok? <==> EmailLivre(t, email)
    ensures r.Err? ==> r.error == RegraNegocio(EmailJaCadastrado)
  {
    if ExistsByEmail(t, email) then Err(RegraNegocio(EmailJaCadastrado)) else Ok(())
  }

  /** `autenticar`: the stored user with the email, when its password is
      exactly the one given. An unknown email and a wrong password throw
      the authentication error, each with its own cause. */
  function Autenticar(t: Table<Usuario>, email: Option<string>, senha: Option<string>): (r: Result<Usuario>)
    ensures r.Ok? ==> r.value in t.rows && r.value.email == email && r.value.senha == senha
    ensures r == Err(ErroAutenticacao(EmailNaoEncontrado)) <==> EmailLivre(t, email)
    ensures r == Err(ErroAutenticacao(SenhaInvalida)) <==>
              FindByEmail(t, email).Some? && FindByEmail(t, email).value.senha != senha
    ensures r.Ok? || r == Err(ErroAutenticacao(EmailNaoEncontrado)) || r == Err(ErroAutenticacao(SenhaInvalida))
  {
    match FindByEmail(t, email)
    case None => Err(ErroAutenticacao(EmailNaoEncontrado))
    case Some(u) => if u.senha != senha then Err(ErroAutenticacao(SenhaInvalida)) else Ok(u)
  }

  /** `salvarUsuario`: validates the email and saves the user. On a taken
      email the error propagates and nothing is stored; otherwise the stored
      user has an id and the given name, email and password. */
  function SalvarUsuario(t: Table<Usuario>, u: Usuario): (r: (Table<Usuario>, Result<Usuario>))
    ensures r.1.Ok? <==> EmailLivre(t, u.email)
    ensures r.1.Err? ==> r == (t, Err(RegraNegocio(EmailJaCadastrado)))
    ensures r.1.Ok? ==> r.1.value.id.Some? && r.1.value == u.(id := r.1.value.id)
    ensures r.1.Ok? && u.id.None? ==> r.1.value.id == Some(t.nextId)
  {
    match ValidarEmail(t, u.email)
    case Err(f) => (t, Err(f))
    case Ok(_) =>
      var (t', saved) := SaveUsuario(t, u);
      (t', Ok(saved))
  }

  /** No two stored users share an email. */
  predicate EmailsUnicos(t: Table<Usuario>)
  {
    forall i, j :: 0 <= i < j < |t.rows| ==> t.rows[i].email != t.rows[j].email
  }

  /** `salvarUsuario` keeps emails unique, and the new user is the one that
      `findByEmail` and `autenticar` then find. */
  lemma SalvarUsuarioKeepsEmailsUnicos(t: Table<Usuario>, u: Usuario)
    requires EmailsUnicos(t)
    ensures var (t', res) := SalvarUsuario(t, u);
            && EmailsUnicos(t')
            && (res.Ok? ==> FindByEmail(t', u.email) == Some(res.value)
                            && Autenticar(t', u.email, u.senha) == Ok(res.value))
  {
    var (t', res) := SalvarUsuario(t, u);
    if res.Ok? {
      var p := SaveAt(t, UsuarioId, WithUsuarioId, u);
      forall i, j | 0 <= i < j < |t'.rows| ensures t'.rows[i].email != t'.rows[j].email {
        if i != p && j != p {
          assert t'.rows[i] == t.rows[i] && t'.rows[j] == t.rows[j];
        } else if i == p {
          assert t'.rows[j] == t.rows[j];
        } else {
          assert t'.rows[i] == t.rows[i];
        }
      }
      var found := FindByEmail(t', u.email).value;
      var q :| 0 <= q < |t'.rows| && t'.rows[q] == found;
      assert q == p;
    }
  }
}
