/**
 * The decision rules of the terminal front end: how `input_cliente` turns a
 * stream of typed answers into the five fields (keep the previous value on an
 * empty answer, ask again until the check passes), and when the register,
 * edit and delete options touch the table.
 *
 * The answers the user types are a sequence consumed from position `pos` on;
 * running out of answers (end of input) yields `None`.
 */
module Terminal {
  import opened Wrappers
  import opened Text
  import opened Validators
  import opened Repository

  /** An empty answer, after trimming, keeps the previous value; any other answer replaces it. */
  function KeepPrevious(answer: string, previous: string): (v: string)
    ensures AllSpace(answer) ==> v == previous
    ensures !AllSpace(answer) ==> v == Strip(answer) && v != []
  {
    StripEmptyIffBlank(answer);
    var a := Strip(answer);
    if a == [] then previous else a
  }

  /**
   * A field with a retry loop: the value from the first answer, from `pos`
   * on, whose merged value passes `valid`, with the position after it; `None`
   * when no remaining answer passes.
   */
  function AskChecked(valid: string -> bool, answers: seq<string>, pos: nat, previous: string): (r: Option<(string, nat)>)
    decreases |answers| - pos
    ensures r.Some? ==> pos < r.value.1 <= |answers| && valid(r.value.0)
    ensures r.Some? ==> r.value.0 == KeepPrevious(answers[r.value.1 - 1], previous)
    ensures r.Some? ==> forall j :: pos <= j < r.value.1 - 1 ==> !valid(KeepPrevious(answers[j], previous))
    ensures r.None? ==> forall j :: pos <= j < |answers| ==> !valid(KeepPrevious(answers[j], previous))
  {
    if pos >= |answers| then None
    else
      var v := KeepPrevious(answers[pos], previous);
      if valid(v) then Some((v, pos + 1))
      else AskChecked(valid, answers, pos + 1, previous)
  }

  /**
   * The name prompt: when creating (`creating`), blank answers are refused
   * and asked again; when editing, a blank answer keeps the previous name.
   */
  function AskName(answers: seq<string>, pos: nat, previous: string, creating: bool): (r: Option<(string, nat)>)
    decreases |answers| - pos
    ensures r.Some? ==> pos < r.value.1 <= |answers|
    ensures r.Some? && creating ==> r.value.0 == Strip(answers[r.value.1 - 1]) && r.value.0 != []
    ensures r.Some? && creating ==> forall j :: pos <= j < r.value.1 - 1 ==> Strip(answers[j]) == []
    ensures r.Some? && !creating ==> r.value == (KeepPrevious(answers[pos], previous), pos + 1)
    ensures r.None? <==> if creating then forall j :: pos <= j < |answers| ==> Strip(answers[j]) == [] else pos >= |answers|
  {
    if pos >= |answers| then None
    else
      var nome := Strip(answers[pos]);
      if nome == [] && creating then AskName(answers, pos + 1, previous, creating)
      else Some((if nome == [] then previous else nome, pos + 1))
  }

  /** The telefone prompt: one answer, no check. */
  function AskPhone(answers: seq<string>, pos: nat, previous: string): (r: Option<(string, nat)>)
    ensures r.Some? <==> pos < |answers|
    ensures r.Some? ==> r.value == (KeepPrevious(answers[pos], previous), pos + 1)
  {
    if pos < |answers| then Some((KeepPrevious(answers[pos], previous), pos + 1)) else None
  }

  /** The previous values: the stored record when editing, all "" when creating. */
  function Previous(existing: Option<Client>): (prev: Client)
    ensures existing.Some? ==> prev == existing.value
    ensures existing.None? ==> prev.nome == prev.email == prev.telefone == prev.cpf == prev.dataNascimento == []
  {
    if existing.Some? then existing.value else Client("", "", "", "", "")
  }

  /**
   * What `input_cliente` returns for these answers: nome, email, telefone,
   * cpf and data de nascimento, each asked in turn from where the previous
   * prompt stopped; `None` when the answers run out first. Each retry loop
   * ends only on a value its validator accepts, and a new client's name is
   * never empty.
   */
  function InputOutcome(existing: Option<Client>, answers: seq<string>): (r: Option<Client>)
    ensures r.Some? ==> ValidEmail(r.value.email) && ValidCpf(r.value.cpf) && ValidDate(r.value.dataNascimento)
    ensures r.Some? && existing.None? ==> r.value.nome != []
  {
    var prev := Previous(existing);
    var nome := AskName(answers, 0, prev.nome, existing.None?);
    if nome.None? then None else
    var email := AskChecked(ValidEmail, answers, nome.value.1, prev.email);
    if email.None? then None else
    var telefone := AskPhone(answers, email.value.1, prev.telefone);
    if telefone.None? then None else
    var cpf := AskChecked(ValidCpf, answers, telefone.value.1, prev.cpf);
    if cpf.None? then None else
    var data := AskChecked(ValidDate, answers, cpf.value.1, prev.dataNascimento);
    if data.None? then None else
    Some(Client(nome.value.0, email.value.0, telefone.value.0, cpf.value.0, data.value.0))
  }

  /** One `while True` prompt loop with a validator, reading answers from `pos`. */
  method AskUntilValid(valid: string -> bool, answers: seq<string>, pos0: nat, previous: string) returns (r: Option<(string, nat)>)
    ensures r == AskChecked(valid, answers, pos0, previous)
  {
    var pos := pos0;
    while true
      invariant pos0 <= pos
      invariant AskChecked(valid, answers, pos, previous) == AskChecked(valid, answers, pos0, previous)
      decreases |answers| - pos
    {
      if pos >= |answers| {
        return None;
      }
      var v := Strip(answers[pos]);
      if v == [] {
        v := previous;
      }
      pos := pos + 1;
      if !valid(v) {
        continue;
      }
      return Some((v, pos));
    }
  }

  /** The name prompt loop, reading answers from `pos`. */
  method AskNameLoop(answers: seq<string>, pos0: nat, previous: string, creating: bool) returns (r: Option<(string, nat)>)
    ensures r == AskName(answers, pos0, previous, creating)
  {
    var pos := pos0;
    while true
      invariant pos0 <= pos
      invariant AskName(answers, pos, previous, creating) == AskName(answers, pos0, previous, creating)
      decreases |answers| - pos
    {
      if pos >= |answers| {
        return None;
      }
      var nome := Strip(answers[pos]);
      pos := pos + 1;
      if nome == [] && creating {
        continue;
      }
      if nome == [] {
        nome := previous;
      }
      return Some((nome, pos));
    }
  }

  /** `input_cliente`: the five prompts in order, each starting where the previous one stopped. */
  method InputClient(existing: Option<Client>, answers: seq<string>) returns (r: Option<Client>)
    ensures r == InputOutcome(existing, answers)
  {
    var prev := Previous(existing);
    var nome := AskNameLoop(answers, 0, prev.nome, existing.None?);
    if nome.None? {
      return None;
    }
    var email := AskUntilValid(ValidEmail, answers, nome.value.1, prev.email);
    if email.None? {
      return None;
    }
    var telefone := AskPhone(answers, email.value.1, prev.telefone);
    if telefone.None? {
      return None;
    }
    var cpf := AskUntilValid(ValidCpf, answers, telefone.value.1, prev.cpf);
    if cpf.None? {
      return None;
    }
    var data := AskUntilValid(ValidDate, answers, cpf.value.1, prev.dataNascimento);
    if data.None? {
      return None;
    }
    return Some(Client(nome.value.0, email.value.0, telefone.value.0, cpf.value.0, data.value.0));
  }

  /**
   * Editing a record whose email, CPF and date are valid, and answering every
   * prompt with blank text, gives back the stored record unchanged.
   */
  lemma BlankAnswersKeepRecord(c: Client, answers: seq<string>)
    requires ValidEmail(c.email) && ValidCpf(c.cpf) && ValidDate(c.dataNascimento)
    requires |answers| >= 5 && forall j :: 0 <= j < 5 ==> AllSpace(answers[j])
    ensures InputOutcome(Some(c), answers) == Some(c)
  {
    forall j | 0 <= j < 5
      ensures Strip(answers[j]) == []
    {
      StripEmptyIffBlank(answers[j]);
    }
  }

  /**
   * When creating, blank answers to the name prompt are skipped and the
   * first non-blank one becomes the name.
   */
  lemma {:induction false} CreatingSkipsBlankNames(answers: seq<string>, pos: nat, k: nat, previous: string)
    requires pos <= k < |answers| && !AllSpace(answers[k])
    requires forall j :: pos <= j < k ==> AllSpace(answers[j])
    ensures AskName(answers, pos, previous, true) == Some((Strip(answers[k]), k + 1))
    decreases k - pos
  {
    StripEmptyIffBlank(answers[pos]);
    if pos < k {
      CreatingSkipsBlankNames(answers, pos + 1, k, previous);
    }
  }

  /**
   * The delete confirmation: `input(...).strip().lower() == "s"`. Only an
   * `s` or `S`, with surrounding whitespace, confirms.
   */
  predicate Confirms(answer: string)
    ensures Confirms(answer) ==> |Strip(answer)| == 1
  {
    AsciiLower(Strip(answer)) == "s"
  }

  lemma ConfirmsExactly(answer: string)
    ensures Confirms(answer) <==> Strip(answer) == "s" || Strip(answer) == "S"
  {
    var t := Strip(answer);
    if Confirms(answer) {
      assert |t| == 1;
      assert AsciiLower(t)[0] == 's';
    }
  }

  /**
   * `opcao_cadastrar`: read the fields and insert them; nothing is inserted
   * when the answers run out first.
   */
  method Register(table: ClientTable, answers: seq<string>)
    requires table.Valid()
    modifies table
    ensures table.Valid()
    ensures InputOutcome(None, answers).Some? ==>
      table.rows == old(table.rows)[old(table.nextId) := InputOutcome(None, answers).value]
      && table.nextId == old(table.nextId) + 1
    ensures InputOutcome(None, answers).None? ==>
      table.rows == old(table.rows) && table.nextId == old(table.nextId)
  {
    var c := InputClient(None, answers);
    if c.Some? {
      table.Insert(c.value);
    }
  }

  /**
   * `opcao_atualizar`, after the id was read: an unknown id changes nothing;
   * otherwise the fields are asked with the stored ones as previous values
   * and the row is overwritten with the result.
   */
  method Edit(table: ClientTable, id: int, answers: seq<string>)
    requires table.Valid()
    modifies table
    ensures table.Valid() && table.nextId == old(table.nextId)
    ensures id !in old(table.rows) ==> table.rows == old(table.rows)
    ensures id in old(table.rows) ==>
      table.rows == (match InputOutcome(Some(old(table.rows)[id]), answers)
                     case Some(c) => old(table.rows)[id := c]
                     case None => old(table.rows))
  {
    var cliente := table.Get(id);
    if cliente.None? {
      return;
    }
    var c := InputClient(Some(cliente.value.client), answers);
    if c.Some? {
      table.Update(id, c.value);
    }
  }

  /**
   * `opcao_excluir`, after the id was read: an unknown id changes nothing;
   * otherwise the row is deleted exactly when the answer confirms.
   */
  method Remove(table: ClientTable, id: int, confirmation: string)
    requires table.Valid()
    modifies table
    ensures table.Valid() && table.nextId == old(table.nextId)
    ensures table.rows == if id in old(table.rows) && Confirms(confirmation) then old(table.rows) - {id} else old(table.rows)
  {
    var cliente := table.Get(id);
    if cliente.None? {
      return;
    }
    var confirma := AsciiLower(Strip(confirmation));
    if confirma == "s" {
      table.Delete(id);
    }
  }
}
