/** The two Spring Data repositories: `LancamentoRepository` and
    `UsuarioRepository`, both `JpaRepository<T, Long>` with an identity
    column. The stored rows live in `Repository`, whose `Save` and `Delete`
    change them in place; the derived queries are functions of the rows. */
module Repositories {
  import opened Model
  import opened Tables

  /** A call to one of the two mutating repository operations: the records
      that Mockito's `verify(repository, never()/times(1))` inspects. */
  datatype Call<T> = SaveCall(entity: T) | DeleteCall(entity: T)

  /** A `JpaRepository` over entities of type `T`: `idOf` reads an entity's id,
      `stamp` sets it. */
  class Repository<T(!new)> {
    const idOf: T -> Option<int>
    const stamp: (T, int) -> T
    var rows: seq<T>
    var nextId: int
    /** Every `save` and `delete` issued so far, in order. */
    ghost var calls: seq<Call<T>>

    function Value(): Table<T>
      reads this
    {
      Table(rows, nextId)
    }

    ghost predicate Valid()
      reads this
    {
      && WellFormed(Value(), idOf)
      && forall x, k :: idOf(stamp(x, k)) == Some(k)
    }

    /** An empty table whose generator starts at 1. */
    constructor (idOf: T -> Option<int>, stamp: (T, int) -> T)
      requires forall x, k :: idOf(stamp(x, k)) == Some(k)
      ensures Valid() && Value() == Empty() && calls == []
      ensures this.idOf == idOf && this.stamp == stamp
    {
      this.idOf := idOf;
      this.stamp := stamp;
      rows := [];
      nextId := 1;
      calls := [];
    }

    /** `save(e)`: stores `e` under the id `AssignedId` picks and returns the
        stored entity. */
    method Save(e: T) returns (saved: T)
      requires Valid()
      modifies this
      ensures Valid()
      ensures (Value(), saved) == Tables.Save(old(Value()), idOf, stamp, e)
      ensures calls == old(calls) + [SaveCall(e)]
    {
      ghost var before := Value();
      var k := AssignedId(Value(), idOf, idOf(e));
      saved := stamp(e, k);
      var pos := IndexOf(rows, idOf, k);
      if pos.Some? {
        rows := rows[pos.value := saved];
      } else {
        rows := rows + [saved];
        nextId := k + 1;
      }
      calls := calls + [SaveCall(e)];
      SaveFound(before, idOf, stamp, e, k);
    }

    /** `delete(e)`: removes the row holding `e`'s id, if any. */
    method Delete(e: T)
      requires Valid()
      modifies this
      ensures Valid()
      ensures Value() == Tables.Delete(old(Value()), idOf, e)
      ensures calls == old(calls) + [DeleteCall(e)]
    {
      ghost var before := Value();
      if idOf(e).Some? {
        var pos := IndexOf(rows, idOf, idOf(e).value);
        if pos.Some? {
          rows := rows[..pos.value] + rows[pos.value + 1..];
        }
        DeleteFound(before, idOf, idOf(e).value, 0);
      }
      calls := calls + [DeleteCall(e)];
    }
  }

  type LancamentoRepository = Repository<Lancamento>

  type UsuarioRepository = Repository<Usuario>

  /** `save` on the entry table: every field but the id is stored as given;
      a new entry gets the generator's next id, a stored id is kept. */
  function SaveLancamento(t: Table<Lancamento>, e: Lancamento): (r: (Table<Lancamento>, Lancamento))
    ensures r.1.id.Some? && r.1 == e.(id := r.1.id)
    ensures e.id.None? ==> r.1.id == Some(t.nextId)
    ensures e.id.Some? && FindById(t, LancamentoId, e.id.value).Some? ==> r.1.id == e.id
  {
    Save(t, LancamentoId, WithLancamentoId, e)
  }

  /** `save` on the user table, with the same id rule. */
  function SaveUsuario(t: Table<Usuario>, u: Usuario): (r: (Table<Usuario>, Usuario))
    ensures r.1.id.Some? && r.1 == u.(id := r.1.id)
    ensures u.id.None? ==> r.1.id == Some(t.nextId)
    ensures u.id.Some? && FindById(t, UsuarioId, u.id.value).Some? ==> r.1.id == u.id
  {
    Save(t, UsuarioId, WithUsuarioId, u)
  }

  /** A field of a query-by-example probe: null matches anything, a value
      matches only itself. */
  predicate Probe<V(==)>(p: Option<V>, v: Option<V>)
  {
    p.None? || p == v
  }

  /** Query by example on a user: every non-null field of the probe matches. */
  predicate UsuarioMatches(p: Usuario, u: Usuario)
  {
    Probe(p.id, u.id) && Probe(p.nome, u.nome) && Probe(p.email, u.email) && Probe(p.senha, u.senha)
  }

  /** Query by example on an entry: every non-null field of the probe
      matches; a probe user matches the entry's user by example too. */
  predicate LancamentoMatches(p: Lancamento, e: Lancamento)
  {
    && Probe(p.id, e.id)
    && Probe(p.descricao, e.descricao)
    && Probe(p.mes, e.mes)
    && Probe(p.ano, e.ano)
    && (p.usuario.None? || (e.usuario.Some? && UsuarioMatches(p.usuario.value, e.usuario.value)))
    && Probe(p.valor, e.valor)
    && Probe(p.dataCadastro, e.dataCadastro)
    && Probe(p.tipo, e.tipo)
    && Probe(p.status, e.status)
  }

  /** `findAll(Example.of(probe))`: exactly the stored entries that match. */
  function FindAll(t: Table<Lancamento>, probe: Lancamento): (r: seq<Lancamento>)
    ensures forall i :: 0 <= i < |r| ==> r[i] in t.rows && LancamentoMatches(probe, r[i])
    ensures forall i :: 0 <= i < |t.rows| && LancamentoMatches(probe, t.rows[i]) ==> t.rows[i] in r
    ensures forall x :: multiset(r)[x] == if LancamentoMatches(probe, x) then multiset(t.rows)[x] else 0
  {
    FilterCount(t.rows, (e: Lancamento) => LancamentoMatches(probe, e));
    Filter(t.rows, (e: Lancamento) => LancamentoMatches(probe, e))
  }

  /** `existsByEmail`: some stored user has exactly this email. */
  function ExistsByEmail(t: Table<Usuario>, email: Option<string>): (r: bool)
    ensures r <==> exists i :: 0 <= i < |t.rows| && t.rows[i].email == email
  {
    FindByEmail(t, email).Some?
  }

  /** `findByEmail`: the first stored user with exactly this email. */
  function FindByEmail(t: Table<Usuario>, email: Option<string>): (r: Option<Usuario>)
    ensures r.Some? ==> r.value in t.rows && r.value.email == email
    ensures r.None? <==> forall i :: 0 <= i < |t.rows| ==> t.rows[i].email != email
  {
    First(t.rows, (u: Usuario) => u.email == email)
  }

  /** `deveVerificarAExistenciaDeUmEmail`, `deveBuscarUmUsuarioPorEmail` and
      `devePersistirUmUsuarioNaBaseDeDados`: after saving a user into a
      well-formed table the user has a positive id, is found by it, and its
      email both exists and is found. */
  lemma SavedUsuarioFound(t: Table<Usuario>, u: Usuario)
    requires WellFormed(t, UsuarioId)
    ensures var (t', saved) := SaveUsuario(t, u);
            && WellFormed(t', UsuarioId) && saved.id.Some? && saved.id.value > 0
            && FindById(t', UsuarioId, saved.id.value) == Some(saved)
            && ExistsByEmail(t', u.email) && FindByEmail(t', u.email).Some?
  {
    var (t', saved) := SaveUsuario(t, u);
    SaveFound(t, UsuarioId, WithUsuarioId, u, saved.id.value);
    var i := IndexOf(t'.rows, UsuarioId, saved.id.value).value;
    assert t'.rows[i] == saved;
  }

  /** `deveSalvarUmLancamento`, `deveBuscarUmLancamentoPorId` and
      `deveAtualizarUmLancamento`: a saved entry is found under its id with
      every other field as given; when the entry already carried a stored id
      (the re-save after setters) it replaced that row under the same id. */
  lemma SavedLancamentoFound(t: Table<Lancamento>, e: Lancamento)
    requires WellFormed(t, LancamentoId)
    ensures var (t', saved) := SaveLancamento(t, e);
            && WellFormed(t', LancamentoId) && saved.id.Some? && saved.id.value > 0
            && FindById(t', LancamentoId, saved.id.value) == Some(saved)
            && saved.(id := e.id) == e
            && (e.id.Some? && FindById(t, LancamentoId, e.id.value).Some? ==>
                  FindById(t', LancamentoId, e.id.value) == Some(e) && |t'.rows| == |t.rows|)
  {
    var (t', saved) := SaveLancamento(t, e);
    SaveFound(t, LancamentoId, WithLancamentoId, e, saved.id.value);
  }

  /** `deveDeletarUmLancamento`: after deleting a stored entry, finding by
      its id returns nothing; every other id is unaffected. */
  lemma DeletedLancamentoGone(t: Table<Lancamento>, e: Lancamento, k: int)
    requires WellFormed(t, LancamentoId) && e.id.Some?
    ensures WellFormed(Delete(t, LancamentoId, e), LancamentoId)
    ensures FindById(Delete(t, LancamentoId, e), LancamentoId, e.id.value).None?
    ensures k != e.id.value ==> FindById(Delete(t, LancamentoId, e), LancamentoId, k) == FindById(t, LancamentoId, k)
  {
    DeleteFound(t, LancamentoId, e.id.value, e.id.value);
    DeleteFound(t, LancamentoId, e.id.value, k);
  }

  /** A client of the classes: the repository tests' sequences of calls. */
  method RepositoryScenario(l: Lancamento, u: Usuario)
    requires l.id.None? && u.id.None?
  {
    var lancamentos := new Repository<Lancamento>(LancamentoId, WithLancamentoId);
    var saved := lancamentos.Save(l);
    assert saved.id == Some(1) && saved.(id := None) == l;
    SavedLancamentoFound(Empty(), l);
    assert FindById(lancamentos.Value(), LancamentoId, 1) == Some(saved);
    var changed := saved.(ano := Some(2022), descricao := Some("Atualizada"), status := Some(Cancelado));
    var again := lancamentos.Save(changed);
    assert again == changed;
    lancamentos.Delete(again);
    DeletedLancamentoGone(Table([saved], 2), again, 1);
    assert FindById(lancamentos.Value(), LancamentoId, 1).None?;

    var usuarios := new Repository<Usuario>(UsuarioId, WithUsuarioId);
    assert !ExistsByEmail(usuarios.Value(), u.email) && FindByEmail(usuarios.Value(), u.email).None?;
    var user := usuarios.Save(u);
    SavedUsuarioFound(Empty(), u);
    assert ExistsByEmail(usuarios.Value(), u.email);
  }
}
