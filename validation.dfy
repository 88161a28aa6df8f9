/** `LancamentoService.validar`: a fail-fast chain of six checks over an
    entry whose fields may be null. Status is never checked. */
module Validation {
  import opened Model

  /** `s.trim().equals("")`: Java's `trim` strips every character up to
      U+0020, so a string is blank when all its characters are such. */
  predicate Blank(s: string)
  {
    forall i :: 0 <= i < |s| ==> s[i] <= ' '
  }

  /** Two-digit, three-digit and five-digit years are refused: the year must
      have exactly four decimal digits. */
  const MinAno := 1000
  const MaxAno := 9999

  /** Whether `l` passes check `c`, stated field by field. */
  predicate Passes(l: Lancamento, c: Check)
  {
    match c
    case DescricaoValida => l.descricao.Some? && !Blank(l.descricao.value)
    case MesValido => l.mes.Some? && 1 <= l.mes.value <= 12
    case AnoValido => l.ano.Some? && MinAno <= l.ano.value <= MaxAno
    case UsuarioInformado => l.usuario.Some? && l.usuario.value.id.Some?
    case ValorValido => l.valor.Some? && l.valor.value > 0.0
    case TipoInformado => l.tipo.Some?
  }

  /** The position of a check in the chain. */
  function Rank(c: Check): nat
  {
    match c
    case DescricaoValida => 0
    case MesValido => 1
    case AnoValido => 2
    case UsuarioInformado => 3
    case ValorValido => 4
    case TipoInformado => 5
  }

  datatype Outcome = Pass | Fail(check: Check)

  /** `validar`: throws for the first check that fails, in the order
      description, month, year, user (and its id), value, type. The result
      passes exactly when every check passes; a failure names a check that
      fails and every earlier check passes. */
  function Validar(l: Lancamento): (r: Outcome)
    ensures r.Fail? ==> !Passes(l, r.check)
    ensures r.Pass? <==> forall c :: Passes(l, c)
    ensures r.Fail? ==> forall c :: Rank(c) < Rank(r.check) ==> Passes(l, c)
  {
    if l.descricao.None? || Blank(l.descricao.value) then Fail(DescricaoValida)
    else if l.mes.None? || l.mes.value < 1 || l.mes.value > 12 then Fail(MesValido)
    else if l.ano.None? || l.ano.value < MinAno || l.ano.value > MaxAno then Fail(AnoValido)
    else if l.usuario.None? || l.usuario.value.id.None? then Fail(UsuarioInformado)
    else if l.valor.None? || l.valor.value <= 0.0 then Fail(ValorValido)
    else if l.tipo.None? then Fail(TipoInformado)
    else Pass
  }

  /** Validation reads neither the id, the registration date nor the status. */
  lemma ValidarIgnoresIdDateAndStatus(l: Lancamento, id: Option<int>, d: Option<Date>, s: Option<Status>)
    ensures Validar(l.(id := id, dataCadastro := d, status := s)) == Validar(l)
  {
  }

  /** The progression of `deveLancarErroAoValidarUmLancamento`: starting
      from an empty entry and filling one field at a time, every step is
      refused by the check for the first field still missing or wrong, and
      the fully filled entry (without status) passes. */
  lemma ValidarProgression()
    ensures Validar(Vazio) == Fail(DescricaoValida)
    ensures Validar(Vazio.(descricao := Some(""))) == Fail(DescricaoValida)
    ensures Validar(Vazio.(descricao := Some("   "))) == Fail(DescricaoValida)
    ensures var l := Vazio.(descricao := Some("descricao"));
            && Validar(l) == Fail(MesValido)
            && Validar(l.(mes := Some(0))) == Fail(MesValido)
            && Validar(l.(mes := Some(13))) == Fail(MesValido)
            && Validar(l.(mes := Some(1))) == Fail(AnoValido)
            && Validar(l.(mes := Some(1), ano := Some(10))) == Fail(AnoValido)
            && Validar(l.(mes := Some(1), ano := Some(2023))) == Fail(UsuarioInformado)
            && Validar(l.(mes := Some(1), ano := Some(2023), usuario := Some(UsuarioVazio))) == Fail(UsuarioInformado)
    ensures var l := Vazio.(descricao := Some("descricao"), mes := Some(1), ano := Some(2023),
                            usuario := Some(UsuarioVazio.(id := Some(1))));
            && Validar(l) == Fail(ValorValido)
            && Validar(l.(valor := Some(-1.0))) == Fail(ValorValido)
            && Validar(l.(valor := Some(100.0))) == Fail(TipoInformado)
            && Validar(l.(valor := Some(100.0), tipo := Some(Receita))) == Pass
  {
    assert !Blank("descricao") by { assert "descricao"[0] == 'd'; }
  }
}
