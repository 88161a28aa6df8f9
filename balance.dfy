/** `LancamentoRepository.obterSaldoPorTipoLancamentoEUsuario`: the query
      select sum(l.valor) from lancamento l join l.usuario u
      where u.id = :idUsuario and l.tipo = :tipo group by u
    over the stored entries, and the balance built from two such sums. */
module Balance {
  import opened Model

  /** A row that survives the inner join and the `where` clause. The status
      is not part of the condition. */
  predicate Selected(e: Lancamento, idUsuario: int, tipo: Tipo)
  {
    e.usuario.Some? && e.usuario.value.id == Some(idUsuario) && e.tipo == Some(tipo)
  }

  /** The non-null values of the selected rows, in storage order: what SQL
      `sum` adds up. */
  function Valores(rows: seq<Lancamento>, idUsuario: int, tipo: Tipo): seq<real>
  {
    if rows == [] then []
    else if Selected(rows[0], idUsuario, tipo) && rows[0].valor.Some?
    then [rows[0].valor.value] + Valores(rows[1..], idUsuario, tipo)
    else Valores(rows[1..], idUsuario, tipo)
  }

  function Sum(xs: seq<real>): real
  {
    if xs == [] then 0.0 else xs[0] + Sum(xs[1..])
  }

  /** SQL addition of a nullable value to a nullable running sum: nulls are
      skipped, and the sum of nothing but nulls is null. */
  function Plus(a: Option<real>, b: Option<real>): Option<real>
  {
    match (a, b)
    case (None, _) => b
    case (_, None) => a
    case (Some(x), Some(y)) => Some(x + y)
  }

  /** The query, row by row. Without any selected row with a value the
      grouped query yields no row (or a null sum), so the result is null,
      not zero; otherwise it is the sum of the selected values. */
  function Soma(rows: seq<Lancamento>, idUsuario: int, tipo: Tipo): (r: Option<real>)
    ensures r.None? <==> Valores(rows, idUsuario, tipo) == []
    ensures r.Some? ==> r.value == Sum(Valores(rows, idUsuario, tipo))
  {
    if rows == [] then None
    else
      var head := if Selected(rows[0], idUsuario, tipo) then rows[0].valor else None;
      var rest := Soma(rows[1..], idUsuario, tipo);
      if head.Some? then SumCons(head.value, Valores(rows[1..], idUsuario, tipo)); Plus(head, rest)
      else Plus(head, rest)
  }

  lemma SumCons(x: real, xs: seq<real>)
    ensures Sum([x] + xs) == x + Sum(xs)
  {
    assert ([x] + xs)[1..] == xs;
  }

  lemma {:induction false} ValoresAppend(rows: seq<Lancamento>, e: Lancamento, idUsuario: int, tipo: Tipo)
    ensures Valores(rows + [e], idUsuario, tipo) ==
              Valores(rows, idUsuario, tipo)
              + (if Selected(e, idUsuario, tipo) && e.valor.Some? then [e.valor.value] else [])
  {
    if rows == [] {
      assert rows + [e] == [e];
      assert [e][1..] == [];
    } else {
      assert (rows + [e])[1..] == rows[1..] + [e];
      ValoresAppend(rows[1..], e, idUsuario, tipo);
    }
  }

  lemma {:induction false} SumAppend(xs: seq<real>, ys: seq<real>)
    ensures Sum(xs + ys) == Sum(xs) + Sum(ys)
  {
    if xs == [] {
      assert xs + ys == ys;
    } else {
      assert (xs + ys)[1..] == xs[1..] + ys;
      SumAppend(xs[1..], ys);
      assert Sum(xs + ys) == xs[0] + Sum(xs[1..] + ys);
    }
  }

  /** Storing one more entry: a selected entry with a value raises the sum by
      that value (a null sum first counting as zero); any other entry, of
      another user or another type or without a value, leaves it as it was. */
  lemma SomaAppend(rows: seq<Lancamento>, e: Lancamento, idUsuario: int, tipo: Tipo)
    ensures Soma(rows + [e], idUsuario, tipo) ==
              if Selected(e, idUsuario, tipo) && e.valor.Some?
              then Some(OrZero(Soma(rows, idUsuario, tipo)) + e.valor.value)
              else Soma(rows, idUsuario, tipo)
  {
    ValoresAppend(rows, e, idUsuario, tipo);
    if Selected(e, idUsuario, tipo) && e.valor.Some? {
      SumAppend(Valores(rows, idUsuario, tipo), [e.valor.value]);
      SumCons(e.valor.value, []);
      assert [e.valor.value] + [] == [e.valor.value];
    } else {
      assert Valores(rows, idUsuario, tipo) + [] == Valores(rows, idUsuario, tipo);
    }
  }

  /** The sum depends on the selected rows only: dropping every row of
      another user or of another type does not change it. */
  lemma {:induction false} SomaOnlySelected(rows: seq<Lancamento>, idUsuario: int, tipo: Tipo)
    ensures Soma(rows, idUsuario, tipo) ==
              Soma(OnlySelected(rows, idUsuario, tipo), idUsuario, tipo)
  {
    if rows != [] {
      SomaOnlySelected(rows[1..], idUsuario, tipo);
      var rest := OnlySelected(rows[1..], idUsuario, tipo);
      if Selected(rows[0], idUsuario, tipo) {
        assert ([rows[0]] + rest)[0] == rows[0];
        assert ([rows[0]] + rest)[1..] == rest;
      }
    }
  }

  function OnlySelected(rows: seq<Lancamento>, idUsuario: int, tipo: Tipo): (r: seq<Lancamento>)
    ensures forall i :: 0 <= i < |r| ==> Selected(r[i], idUsuario, tipo)
    ensures forall i :: 0 <= i < |rows| && Selected(rows[i], idUsuario, tipo) ==> rows[i] in r
    ensures forall x :: multiset(r)[x] == if Selected(x, idUsuario, tipo) then multiset(rows)[x] else 0
  {
    if rows == [] then []
    else
      assert rows == [rows[0]] + rows[1..];
      if Selected(rows[0], idUsuario, tipo) then [rows[0]] + OnlySelected(rows[1..], idUsuario, tipo)
    else OnlySelected(rows[1..], idUsuario, tipo)
  }

  /** Changing the status of any stored entry never changes the sum. */
  lemma {:induction false} SomaIgnoresStatus(rows: seq<Lancamento>, i: int, s: Option<Status>, idUsuario: int, tipo: Tipo)
    requires 0 <= i < |rows|
    ensures Soma(rows[i := rows[i].(status := s)], idUsuario, tipo) == Soma(rows, idUsuario, tipo)
  {
    if i > 0 {
      assert rows[i := rows[i].(status := s)][1..] == rows[1..][i - 1 := rows[i].(status := s)];
      SomaIgnoresStatus(rows[1..], i - 1, s, idUsuario, tipo);
    }
  }

  function OrZero(x: Option<real>): real
  {
    match x
    case Some(v) => v
    case None => 0.0
  }

  /** The balance of a user: income sum minus expense sum, a null sum
      counting as zero. `obterSaldoPorUsuario` is known only from its call
      in `UsuarioController` and from the two sum queries; this combination
      is an assumption. */
  function Saldo(rows: seq<Lancamento>, idUsuario: int): (r: real)
    ensures r == Sum(Valores(rows, idUsuario, Receita)) - Sum(Valores(rows, idUsuario, Despesa))
  {
    OrZero(Soma(rows, idUsuario, Receita)) - OrZero(Soma(rows, idUsuario, Despesa))
  }

  /** One income of 100 and one expense of 30 of user 1, plus an income of
      5 of user 2: the balance of user 1 is 70, and a user without entries
      has an absent income sum and balance 0. */
  lemma SaldoExample(rows: seq<Lancamento>)
    requires var base := Vazio.(usuario := Some(Usuario(Some(1), None, None, None)));
             rows == [base.(id := Some(1), valor := Some(100.0), tipo := Some(Receita)),
                      base.(id := Some(2), valor := Some(30.0), tipo := Some(Despesa)),
                      base.(id := Some(3), usuario := Some(Usuario(Some(2), None, None, None)),
                            valor := Some(5.0), tipo := Some(Receita))]
    ensures Saldo(rows, 1) == 70.0
    ensures Soma(rows, 3, Receita) == None && Saldo(rows, 3) == 0.0
  {
    var r1, r2 := rows[1..], rows[1..][1..];
    assert r2[1..] == [];
    assert Valores(r2, 1, Receita) == [] && Valores(r2, 1, Despesa) == [];
    assert Valores(r1, 1, Receita) == [] && Valores(r1, 1, Despesa) == [30.0];
    assert Valores(rows, 1, Receita) == [100.0];
    SumCons(100.0, []);
    SumCons(30.0, []);
    assert [100.0] + [] == [100.0] && [30.0] + [] == [30.0];
    assert Valores(r2, 3, Receita) == [] && Valores(r2, 3, Despesa) == [];
    assert Valores(r1, 3, Receita) == [] && Valores(r1, 3, Despesa) == [];
  }
}
