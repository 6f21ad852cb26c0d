/** The entry (lancamento) service: the six-rule validation chain and the
    save / update / delete / status-change lifecycle over an abstract entry
    store keyed by id. */
module Lancamentos {
  import opened Comum
  import opened JavaTexto
  import opened Usuarios

  datatype StatusLancamento = Pendente | Cancelado | Efetivado

  datatype TipoLancamento = Receita | Despesa

  /** The field values of an entry; every field is a nullable Java reference. */
  datatype LancamentoDados = LancamentoDados(
    id: Option<int>,
    descricao: Option<string>,
    mes: Option<Integer>,
    ano: Option<Integer>,
    usuario: Option<Usuario>,
    valor: Option<real>,            // a BigDecimal, exact
    tipo: Option<TipoLancamento>,
    status: Option<StatusLancamento>)

  /** The entity object the caller hands to the service; the service assigns its
      status, and saving a new entity gives it an id. */
  class Lancamento {
    var id: Option<int>
    var descricao: Option<string>
    var mes: Option<Integer>
    var ano: Option<Integer>
    var usuario: Option<Usuario>
    var valor: Option<real>
    var tipo: Option<TipoLancamento>
    var status: Option<StatusLancamento>

    constructor (d: LancamentoDados)
      ensures Dados() == d
    {
      id, descricao, mes, ano := d.id, d.descricao, d.mes, d.ano;
      usuario, valor, tipo, status := d.usuario, d.valor, d.tipo, d.status;
    }

    function Dados(): LancamentoDados
      reads this
    {
      LancamentoDados(id, descricao, mes, ano, usuario, valor, tipo, status)
    }
  }

  const MsgDescricao: string := "Informe uma descricao valida."
  const MsgMes: string := "Informe um mes valido."
  const MsgAno: string := "Informe um ano valido."
  const MsgUsuario: string := "Informe um Usuario."
  const MsgValor: string := "Informe um valor valido."
  const MsgTipo: string := "Informe um tipo de Lancamento."

  // The six rules, each stated on its own terms.

  predicate DescricaoValida(d: LancamentoDados) {
    d.descricao.Some? && !IsBlank(d.descricao.value)
  }

  predicate MesValido(d: LancamentoDados) {
    d.mes.Some? && 1 <= d.mes.value <= 12
  }

  /** The year's decimal text has four characters: 1000..9999, or -999..-100. */
  predicate AnoValido(d: LancamentoDados) {
    d.ano.Some? && (1000 <= d.ano.value <= 9999 || -999 <= d.ano.value <= -100)
  }

  predicate UsuarioInformado(d: LancamentoDados) {
    d.usuario.Some? && d.usuario.value.id.Some?
  }

  predicate ValorValido(d: LancamentoDados) {
    d.valor.Some? && d.valor.value > 0.0
  }

  predicate TipoInformado(d: LancamentoDados) {
    d.tipo.Some?
  }

  predicate LancamentoValido(d: LancamentoDados) {
    && DescricaoValida(d) && MesValido(d) && AnoValido(d)
    && UsuarioInformado(d) && ValorValido(d) && TipoInformado(d)
  }

  /** validar: the guards in their fixed order; the first one that fails decides
      the message. */
  function Validar(d: LancamentoDados): (r: Outcome)
    ensures r.Fail? ==> r.error.RegraNegocio?
  {
    if d.descricao.None? || TrimsToEmpty(d.descricao.value) then Fail(RegraNegocio(MsgDescricao))
    else if d.mes.None? || d.mes.value < 1 || d.mes.value > 12 then Fail(RegraNegocio(MsgMes))
    else if d.ano.None? || !HasFourCharacters(d.ano.value) then Fail(RegraNegocio(MsgAno))
    else if d.usuario.None? || d.usuario.value.id.None? then Fail(RegraNegocio(MsgUsuario))
    else if d.valor.None? || d.valor.value <= 0.0 then Fail(RegraNegocio(MsgValor))
    else if d.tipo.None? then Fail(RegraNegocio(MsgTipo))
    else Pass
  }

  /** validar passes exactly when all six rules hold, and otherwise reports the
      message of the first rule that does not, in the order descricao, mes, ano,
      usuario, valor, tipo. */
  lemma ValidarPrimeiraRegraViolada(d: LancamentoDados)
    ensures Validar(d) == Pass <==> LancamentoValido(d)
    ensures !DescricaoValida(d) ==> Validar(d) == Fail(RegraNegocio(MsgDescricao))
    ensures DescricaoValida(d) && !MesValido(d) ==> Validar(d) == Fail(RegraNegocio(MsgMes))
    ensures DescricaoValida(d) && MesValido(d) && !AnoValido(d) ==>
      Validar(d) == Fail(RegraNegocio(MsgAno))
    ensures DescricaoValida(d) && MesValido(d) && AnoValido(d) && !UsuarioInformado(d) ==>
      Validar(d) == Fail(RegraNegocio(MsgUsuario))
    ensures DescricaoValida(d) && MesValido(d) && AnoValido(d) && UsuarioInformado(d) && !ValorValido(d) ==>
      Validar(d) == Fail(RegraNegocio(MsgValor))
    ensures (DescricaoValida(d) && MesValido(d) && AnoValido(d) && UsuarioInformado(d) && ValorValido(d)
      && !TipoInformado(d)) ==> Validar(d) == Fail(RegraNegocio(MsgTipo))
  {
    if !DescricaoValida(d) {
      assert Validar(d) == Fail(RegraNegocio(MsgDescricao));
    } else if !MesValido(d) {
      assert Validar(d) == Fail(RegraNegocio(MsgMes));
    } else if !AnoValido(d) {
      assert Validar(d) == Fail(RegraNegocio(MsgAno));
    } else if !UsuarioInformado(d) {
      assert Validar(d) == Fail(RegraNegocio(MsgUsuario));
    } else if !ValorValido(d) {
      assert Validar(d) == Fail(RegraNegocio(MsgValor));
    } else if !TipoInformado(d) {
      assert Validar(d) == Fail(RegraNegocio(MsgTipo));
    } else {
      assert Validar(d) == Pass;
    }
  }

  /** validar never looks at the id or the status. */
  lemma ValidarIgnoraIdEStatus(d: LancamentoDados, id: Option<int>, status: Option<StatusLancamento>)
    ensures Validar(d.(id := id, status := status)) == Validar(d)
  {
    ValidarPrimeiraRegraViolada(d);
    ValidarPrimeiraRegraViolada(d.(id := id, status := status));
  }

  /** The entry service over its store. Every stored entry sits under its own id,
      passed validation when it was written, and has an id below the next one
      the store hands out. */
  class LancamentoService {
    var repositorio: map<int, LancamentoDados>
    var proximoId: int

    ghost predicate Valid()
      reads this
    {
      forall k :: k in repositorio ==>
        k < proximoId && repositorio[k].id == Some(k) && LancamentoValido(repositorio[k])
    }

    constructor ()
      ensures Valid() && repositorio == map[]
    {
      repositorio := map[];
      proximoId := 1;
    }

    /** repository.save: an entity without an id gets the next free id; the
        entity's fields are written under its id. */
    method Gravar(l: Lancamento) returns (gravado: LancamentoDados)
      requires Valid() && LancamentoValido(l.Dados())
      modifies this, l`id
      ensures Valid()
      ensures l.id == (if old(l.id).Some? then old(l.id) else Some(old(proximoId)))
      ensures old(l.id).None? ==> l.id.value !in old(repositorio)
      ensures gravado == l.Dados() == old(l.Dados()).(id := l.id)
      ensures repositorio == old(repositorio)[l.id.value := gravado]
    {
      var k: int;
      if l.id.Some? {
        k := l.id.value;
      } else {
        k := proximoId;
        l.id := Some(k);
      }
      gravado := l.Dados();
      repositorio := repositorio[k := gravado];
      proximoId := Max(proximoId, k + 1);
    }

    /** salvar: validate, force the status to PENDENTE, save. */
    method Salvar(l: Lancamento) returns (r: Result<LancamentoDados>)
      requires Valid()
      modifies this, l
      ensures Valid()
      ensures !LancamentoValido(old(l.Dados())) ==>
        Validar(old(l.Dados())).Fail? && r == Failure(Validar(old(l.Dados())).error) && unchanged(this, l)
      ensures LancamentoValido(old(l.Dados())) ==>
        && l.status == Some(Pendente)
        && l.id == (if old(l.id).Some? then old(l.id) else Some(old(proximoId)))
        && l.Dados() == old(l.Dados()).(id := l.id, status := Some(Pendente))
        && r == Success(l.Dados())
        && repositorio == old(repositorio)[l.id.value := l.Dados()]
    {
      var v := Validar(l.Dados());
      ValidarPrimeiraRegraViolada(l.Dados());
      if v.Fail? {
        return Failure(v.error);
      }
      l.status := Some(Pendente);
      var g := Gravar(l);
      r := Success(g);
    }

    /** atualizar: an id is required before anything else; then validate and
        save, leaving the status as it is. */
    method Atualizar(l: Lancamento) returns (r: Result<LancamentoDados>)
      requires Valid()
      modifies this, l`id
      ensures Valid() && l.Dados() == old(l.Dados())
      ensures l.id.None? ==> r == Failure(IdAusente) && unchanged(this)
      ensures l.id.Some? && !LancamentoValido(l.Dados()) ==>
        r == Failure(Validar(l.Dados()).error) && unchanged(this)
      ensures l.id.Some? && LancamentoValido(l.Dados()) ==>
        r == Success(l.Dados()) && repositorio == old(repositorio)[l.id.value := l.Dados()]
    {
      if l.id.None? {
        return Failure(IdAusente);
      }
      var v := Validar(l.Dados());
      ValidarPrimeiraRegraViolada(l.Dados());
      if v.Fail? {
        return Failure(v.error);
      }
      var g := Gravar(l);
      r := Success(g);
    }

    /** deletar: an id is required; the entry under it is removed, and the
        other fields are not looked at. */
    method Deletar(l: Lancamento) returns (r: Outcome)
      requires Valid()
      modifies this
      ensures Valid() && proximoId == old(proximoId)
      ensures l.id.None? ==> r == Fail(IdAusente) && unchanged(this)
      ensures l.id.Some? ==> r == Pass && repositorio == old(repositorio) - {l.id.value}
    {
      if l.id.None? {
        return Fail(IdAusente);
      }
      repositorio := repositorio - {l.id.value};
      r := Pass;
    }

    /** atualizarStatus: the entity's status is assigned first, then the whole
        entity goes through atualizar; a failure there leaves the store as it
        was but the entity keeps its new status. A null status is accepted:
        validar does not look at it, so a valid entry is then stored without one. */
    method AtualizarStatus(l: Lancamento, status: Option<StatusLancamento>) returns (r: Outcome)
      requires Valid()
      modifies this, l
      ensures Valid()
      ensures l.Dados() == old(l.Dados()).(status := status)
      ensures l.id.None? ==> r == Fail(IdAusente) && unchanged(this)
      ensures l.id.Some? && !LancamentoValido(l.Dados()) ==>
        r == Fail(Validar(l.Dados()).error) && unchanged(this)
      ensures l.id.Some? && LancamentoValido(l.Dados()) ==>
        r == Pass && repositorio == old(repositorio)[l.id.value := l.Dados()]
    {
      l.status := status;
      var a := Atualizar(l);
      r := if a.Success? then Pass else Fail(a.error);
    }
  }
}
