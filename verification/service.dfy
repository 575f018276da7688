/**
 * `processar_lote_clientes`: validate-then-insert over a list of candidate
 * records, item by item, collecting the accepted items and, for each rejected
 * one, its position, the item itself and every failed check.
 */
module Service {
  import opened Wrappers
  import opened Text
  import opened Validators
  import opened Repository

  /** A candidate record: field name to value; `None` stands for null or another falsy value. */
  type Item = map<string, Option<string>>

  /** What the caller hands over: a list of items, or some other value. */
  datatype Payload = ItemList(items: seq<Item>) | NotAList

  /** A failed check, in the order the checks run; `Message` is the text put in `erros`. */
  datatype Reason = NomeObrigatorio | EmailInvalido | CpfInvalido | DataInvalida {
    function Message(): string {
      match this
      case NomeObrigatorio => "nome obrigat\U{00F3}rio"
      case EmailInvalido => "email inv\U{00E1}lido"
      case CpfInvalido => "cpf inv\U{00E1}lido (11 d\U{00ED}gitos)"
      case DataInvalida => "data inv\U{00E1}lida (dd/mm/aaaa)"
    }

    function Rank(): nat {
      match this
      case NomeObrigatorio => 0
      case EmailInvalido => 1
      case CpfInvalido => 2
      case DataInvalida => 3
    }
  }

  /** One entry of `falhas`: `{indice, cliente, erros}`. */
  datatype Rejection = Rejection(indice: nat, cliente: Item, erros: seq<Reason>)

  const NotAListMessage: string := "Payload de lote deve ser uma lista de clientes."

  /** Whether check `r` fails on the trimmed fields `c`. */
  predicate Fails(c: Client, r: Reason)
    ensures Fails(c, r) && r != NomeObrigatorio ==>
      (match r
       case EmailInvalido => c.email != []
       case CpfInvalido => c.cpf != []
       case _ => c.dataNascimento != [])
  {
    match r
    case NomeObrigatorio => c.nome == []
    case EmailInvalido => !ValidEmail(c.email)
    case CpfInvalido => !ValidCpf(c.cpf)
    case DataInvalida => !ValidDate(c.dataNascimento)
  }

  /** `(cliente.get(key) or "").strip()`: a missing key or a falsy value reads as "". */
  function Field(item: Item, key: string): (v: string)
    ensures (key !in item || item[key].None?) ==> v == []
    ensures v == [] || (!IsSpace(v[0]) && !IsSpace(v[|v| - 1]))
  {
    var raw := if key in item && item[key].Some? then item[key].value else "";
    StripEnds(raw);
    Strip(raw)
  }

  /** The five trimmed fields of an item, as they are checked and inserted. */
  function Trimmed(item: Item): (c: Client)
    ensures "nome" !in item ==> c.nome == []
    ensures "email" !in item ==> c.email == []
    ensures "telefone" !in item ==> c.telefone == []
    ensures "cpf" !in item ==> c.cpf == []
    ensures "data_nascimento" !in item ==> c.dataNascimento == []
  {
    Client(Field(item, "nome"), Field(item, "email"), Field(item, "telefone"),
           Field(item, "cpf"), Field(item, "data_nascimento"))
  }

  /** `[r]` when check `r` fails on `c`, else nothing: one `if ...: erros.append(...)`. */
  function CheckReason(c: Client, r: Reason): (erros: seq<Reason>)
    ensures forall x :: x in erros <==> x == r && Fails(c, r)
  {
    if Fails(c, r) then [r] else []
  }

  /**
   * `erros` for one candidate: the four checks run one after the other, each
   * appending its reason when it fails (see ReasonsAreFailedChecks).
   */
  function Reasons(c: Client): (erros: seq<Reason>)
    ensures |erros| <= 4
  {
    CheckReason(c, NomeObrigatorio) + CheckReason(c, EmailInvalido)
    + CheckReason(c, CpfInvalido) + CheckReason(c, DataInvalida)
  }

  /** Every check runs: each reason is present exactly when its check fails. */
  lemma ReasonsAreFailedChecks(c: Client)
    ensures forall r :: r in Reasons(c) <==> Fails(c, r)
  {
    var n, e, p, d := CheckReason(c, NomeObrigatorio), CheckReason(c, EmailInvalido),
                      CheckReason(c, CpfInvalido), CheckReason(c, DataInvalida);
    forall r
      ensures r in Reasons(c) <==> Fails(c, r)
    {
      assert r in n + e + p + d <==> r in n || r in e || r in p || r in d;
    }
  }

  /** The reasons come in the order the checks run (nome, email, cpf, data), each at most once. */
  lemma ReasonsInCheckOrder(c: Client)
    ensures forall i, j :: 0 <= i < j < |Reasons(c)| ==> Reasons(c)[i].Rank() < Reasons(c)[j].Rank()
  {
    ChecksInOrder(CheckReason(c, NomeObrigatorio), CheckReason(c, EmailInvalido),
                  CheckReason(c, CpfInvalido), CheckReason(c, DataInvalida));
  }

  /** Four optional reasons, one per check, concatenated in check order. */
  lemma ChecksInOrder(n: seq<Reason>, e: seq<Reason>, p: seq<Reason>, d: seq<Reason>)
    requires n == [] || n == [NomeObrigatorio]
    requires e == [] || e == [EmailInvalido]
    requires p == [] || p == [CpfInvalido]
    requires d == [] || d == [DataInvalida]
    ensures forall i, j :: 0 <= i < j < |n + e + p + d| ==> (n + e + p + d)[i].Rank() < (n + e + p + d)[j].Rank()
  {
    var erros := n + e + p + d;
    assert forall k :: 0 <= k < |erros| ==>
      (k < |n| ==> erros[k] == NomeObrigatorio) &&
      (|n| <= k < |n| + |e| ==> erros[k] == EmailInvalido) &&
      (|n| + |e| <= k < |n| + |e| + |p| ==> erros[k] == CpfInvalido) &&
      (|n| + |e| + |p| <= k ==> erros[k] == DataInvalida);
  }

  /** The reasons an item is rejected for: the checks its trimmed fields fail. */
  function Outcome(item: Item): (erros: seq<Reason>)
    ensures |erros| <= 4
  {
    Reasons(Trimmed(item))
  }

  /** An item is accepted exactly when its trimmed fields pass all four checks. */
  lemma AcceptedIffAllChecksPass(c: Client)
    ensures Reasons(c) == [] <==> c.nome != [] && ValidEmail(c.email) && ValidCpf(c.cpf) && ValidDate(c.dataNascimento)
  {
    ReasonsAreFailedChecks(c);
    if Reasons(c) != [] {
      assert Fails(c, Reasons(c)[0]);
    }
  }

  /** A name that is missing, null or whitespace only always yields `nome obrigatório`. */
  lemma BlankNameAlwaysRejected(item: Item)
    requires "nome" !in item || item["nome"].None? || AllSpace(item["nome"].value)
    ensures NomeObrigatorio in Reasons(Trimmed(item))
  {
    StripEmptyIffBlank(if "nome" in item && item["nome"].Some? then item["nome"].value else "");
    ReasonsAreFailedChecks(Trimmed(item));
  }

  /** The telefone field is trimmed and stored but never checked. */
  lemma TelefoneNeverChecked(c: Client, telefone: string)
    ensures Reasons(c.(telefone := telefone)) == Reasons(c)
  {
  }

  /*
   * The batch outcome, for a per-item `check` that lists the reasons an item
   * is rejected for; `processar_lote_clientes` uses `Outcome`. The lemmas
   * below hold whatever the check is.
   */

  /** `criadas` after the items: the accepted ones, untrimmed, in input order. */
  function Accepted(check: Item -> seq<Reason>, items: seq<Item>): (r: seq<Item>)
    ensures |r| <= |items|
  {
    if items == [] then []
    else
      var last := items[|items| - 1];
      Accepted(check, items[..|items| - 1]) + (if check(last) == [] then [last] else [])
  }

  /** `falhas` after the items: one entry per rejected item, in input order. */
  function Rejections(check: Item -> seq<Reason>, items: seq<Item>): (r: seq<Rejection>)
    ensures |r| <= |items|
  {
    if items == [] then []
    else
      var last := items[|items| - 1];
      Rejections(check, items[..|items| - 1])
        + (if check(last) != [] then [Rejection(|items| - 1, last, check(last))] else [])
  }

  /** Every item ends up in exactly one of the two lists. */
  lemma {:induction false} BatchPartition(check: Item -> seq<Reason>, items: seq<Item>)
    ensures |Accepted(check, items)| + |Rejections(check, items)| == |items|
  {
    if items != [] {
      BatchPartition(check, items[..|items| - 1]);
    }
  }

  /** `criadas` holds exactly the given items that pass the check. */
  lemma {:induction false} AcceptedArePassing(check: Item -> seq<Reason>, items: seq<Item>)
    ensures forall x :: x in Accepted(check, items) <==> x in items && check(x) == []
  {
    if items != [] {
      var init, last := items[..|items| - 1], items[|items| - 1];
      AcceptedArePassing(check, init);
      assert items == init + [last];
    }
  }

  /**
   * Each entry of `falhas` names the position of a rejected item, carries the
   * item as given and its non-empty list of reasons; entries come by increasing position.
   */
  lemma {:induction false} RejectionsDescribeFailures(check: Item -> seq<Reason>, items: seq<Item>)
    ensures forall k :: 0 <= k < |Rejections(check, items)| ==>
      var f := Rejections(check, items)[k];
      && f.indice < |items| && f.cliente == items[f.indice]
      && f.erros == check(f.cliente) && f.erros != []
    ensures forall k, l :: 0 <= k < l < |Rejections(check, items)| ==>
      Rejections(check, items)[k].indice < Rejections(check, items)[l].indice
  {
    if items != [] {
      var init := items[..|items| - 1];
      RejectionsDescribeFailures(check, init);
      assert forall k :: 0 <= k < |init| ==> init[k] == items[k];
    }
  }

  /** Every item that fails the check has its entry in `falhas`. */
  lemma {:induction false} FailingItemIsReported(check: Item -> seq<Reason>, items: seq<Item>, i: nat)
    requires i < |items| && check(items[i]) != []
    ensures exists k :: 0 <= k < |Rejections(check, items)| && Rejections(check, items)[k].indice == i
  {
    var init := items[..|items| - 1];
    if i == |items| - 1 {
      assert Rejections(check, items)[|Rejections(check, init)|].indice == i;
    } else {
      assert init[i] == items[i];
      FailingItemIsReported(check, init, i);
      var k :| 0 <= k < |Rejections(check, init)| && Rejections(check, init)[k].indice == i;
      assert Rejections(check, items)[k] == Rejections(check, init)[k];
    }
  }

  /** `falhas` entries of a later part of the batch, with their positions moved by `offset`. */
  function Shifted(fs: seq<Rejection>, offset: nat): (gs: seq<Rejection>)
    ensures |gs| == |fs|
  {
    if fs == [] then []
    else
      var last := fs[|fs| - 1];
      Shifted(fs[..|fs| - 1], offset) + [last.(indice := last.indice + offset)]
  }

  /** Shifting a list with one more entry shifts that entry too. */
  lemma ShiftedSnoc(fs: seq<Rejection>, f: Rejection, offset: nat)
    ensures Shifted(fs + [f], offset) == Shifted(fs, offset) + [f.(indice := f.indice + offset)]
  {
    assert (fs + [f])[..|fs|] == fs;
  }

  /** Shifting moves each position by `offset` and changes nothing else. */
  lemma {:induction false} ShiftedMovesPositions(fs: seq<Rejection>, offset: nat)
    ensures forall k :: 0 <= k < |fs| ==> Shifted(fs, offset)[k] == fs[k].(indice := fs[k].indice + offset)
  {
    if fs != [] {
      var init := fs[..|fs| - 1];
      ShiftedMovesPositions(init, offset);
      assert forall k :: 0 <= k < |init| ==> init[k] == fs[k];
    }
  }

  /**
   * Items are accepted one by one and independently: `criadas` for a batch
   * `a + b` is `criadas` for `a` followed by `criadas` for `b`.
   */
  lemma {:induction false} AcceptedAppend(check: Item -> seq<Reason>, a: seq<Item>, b: seq<Item>)
    ensures Accepted(check, a + b) == Accepted(check, a) + Accepted(check, b)
  {
    if b == [] {
      assert a + b == a;
    } else {
      var init := b[..|b| - 1];
      AcceptedAppend(check, a, init);
      assert (a + b)[..|a + b| - 1] == a + init;
    }
  }

  /**
   * Items are rejected one by one and independently: `falhas` for a batch
   * `a + b` is `falhas` for `a` followed by `falhas` for `b`, whose positions
   * count from `|a|`.
   */
  lemma {:induction false} RejectionsAppend(check: Item -> seq<Reason>, a: seq<Item>, b: seq<Item>)
    ensures Rejections(check, a + b) == Rejections(check, a) + Shifted(Rejections(check, b), |a|)
  {
    if b == [] {
      assert a + b == a;
    } else {
      var init, last := b[..|b| - 1], b[|b| - 1];
      assert b == init + [last];
      assert a + b == (a + init) + [last];
      RejectionsAppend(check, a, init);
      RejectionsAppendStep(check, a, init, last);
    }
  }

  /** The inductive step of RejectionsAppend: one more item at the end of `b`. */
  lemma RejectionsAppendStep(check: Item -> seq<Reason>, a: seq<Item>, init: seq<Item>, last: Item)
    requires Rejections(check, a + init) == Rejections(check, a) + Shifted(Rejections(check, init), |a|)
    ensures Rejections(check, (a + init) + [last]) == Rejections(check, a) + Shifted(Rejections(check, init + [last]), |a|)
  {
    if check(last) == [] {
      KeptAppendStep(check, a, init, last);
    } else {
      RejectedAppendStep(check, a, init, last);
    }
  }

  lemma KeptAppendStep(check: Item -> seq<Reason>, a: seq<Item>, init: seq<Item>, last: Item)
    requires check(last) == []
    requires Rejections(check, a + init) == Rejections(check, a) + Shifted(Rejections(check, init), |a|)
    ensures Rejections(check, (a + init) + [last]) == Rejections(check, a) + Shifted(Rejections(check, init + [last]), |a|)
  {
    RejectionsSnocKept(check, a + init, last);
    RejectionsSnocKept(check, init, last);
  }

  lemma RejectedAppendStep(check: Item -> seq<Reason>, a: seq<Item>, init: seq<Item>, last: Item)
    requires check(last) != []
    requires Rejections(check, a + init) == Rejections(check, a) + Shifted(Rejections(check, init), |a|)
    ensures Rejections(check, (a + init) + [last]) == Rejections(check, a) + Shifted(Rejections(check, init + [last]), |a|)
  {
    RejectionsSnocRejected(check, a + init, last);
    RejectionsSnocRejected(check, init, last);
    RejectedStep(Rejections(check, a), Rejections(check, init), Rejections(check, a + init),
      Rejection(|init|, last, check(last)), Rejection(|a + init|, last, check(last)), |a|);
  }

  /**
   * The sequence algebra of RejectionsAppendStep when the last item is
   * rejected: `g` is the entry `f` with its position moved by `offset`.
   */
  lemma RejectedStep(ra: seq<Rejection>, ri: seq<Rejection>, rai: seq<Rejection>, f: Rejection, g: Rejection, offset: nat)
    requires rai == ra + Shifted(ri, offset)
    requires g == f.(indice := f.indice + offset)
    ensures rai + [g] == ra + Shifted(ri + [f], offset)
  {
    ShiftedSnoc(ri, f, offset);
    assert (ra + Shifted(ri, offset)) + [g] == ra + (Shifted(ri, offset) + [g]);
  }

  /** A passing last item adds nothing to `falhas`. */
  lemma RejectionsSnocKept(check: Item -> seq<Reason>, xs: seq<Item>, x: Item)
    requires check(x) == []
    ensures Rejections(check, xs + [x]) == Rejections(check, xs)
  {
    assert (xs + [x])[..|xs|] == xs;
  }

  /** A failing last item adds one entry to `falhas`, at its own position. */
  lemma RejectionsSnocRejected(check: Item -> seq<Reason>, xs: seq<Item>, x: Item)
    requires check(x) != []
    ensures Rejections(check, xs + [x]) == Rejections(check, xs) + [Rejection(|xs|, x, check(x))]
  {
    assert (xs + [x])[..|xs|] == xs;
  }

  /** One more item extends `criadas` or `falhas`, according to its reasons. */
  lemma BatchStep(check: Item -> seq<Reason>, items: seq<Item>, i: nat)
    requires i < |items|
    ensures Accepted(check, items[..i + 1]) ==
      Accepted(check, items[..i]) + (if check(items[i]) == [] then [items[i]] else [])
    ensures Rejections(check, items[..i + 1]) ==
      Rejections(check, items[..i]) + (if check(items[i]) != [] then [Rejection(i, items[i], check(items[i]))] else [])
  {
    assert items[..i + 1][..i] == items[..i];
  }

  /** The trimmed fields of each item, in order. */
  function TrimmedAll(xs: seq<Item>): (cs: seq<Client>)
    ensures |cs| == |xs|
    ensures forall k :: 0 <= k < |xs| ==> cs[k] == Trimmed(xs[k])
  {
    if xs == [] then [] else TrimmedAll(xs[..|xs| - 1]) + [Trimmed(xs[|xs| - 1])]
  }

  /** The table after inserting `cs`, one after another, from id `start` on. */
  function WithInserted(base: map<int, Client>, start: int, cs: seq<Client>): (w: map<int, Client>)
    ensures forall id :: id in w <==> id in base || start <= id < start + |cs|
  {
    if cs == [] then base
    else WithInserted(base, start, cs[..|cs| - 1])[start + |cs| - 1 := cs[|cs| - 1]]
  }

  /**
   * The table after the batch: each inserted record sits at its own new id,
   * and the ids below `start` keep their rows.
   */
  lemma {:induction false} WithInsertedLookup(base: map<int, Client>, start: int, cs: seq<Client>)
    ensures forall id :: start <= id < start + |cs| ==>
      id in WithInserted(base, start, cs) && WithInserted(base, start, cs)[id] == cs[id - start]
    ensures forall id :: id < start ==>
      (id in WithInserted(base, start, cs) <==> id in base)
      && (id in base ==> WithInserted(base, start, cs)[id] == base[id])
  {
    if cs != [] {
      var init := cs[..|cs| - 1];
      WithInsertedLookup(base, start, init);
      assert forall k :: 0 <= k < |init| ==> init[k] == cs[k];
    }
  }

  /** Inserting one more record puts it at the next id. */
  lemma InsertedStep(base: map<int, Client>, start: int, cs: seq<Client>, c: Client, rows: map<int, Client>, next: int)
    requires rows == WithInserted(base, start, cs) && next == start + |cs|
    ensures WithInserted(base, start, cs + [c]) == rows[next := c]
  {
    assert (cs + [c])[..|cs|] == cs;
  }

  /** The checks of the loop body, in order, on the trimmed fields of one item. */
  method CheckItem(c: Client) returns (erros: seq<Reason>)
    ensures erros == Reasons(c)
  {
    ghost var n, e, p, d := CheckReason(c, NomeObrigatorio), CheckReason(c, EmailInvalido),
                            CheckReason(c, CpfInvalido), CheckReason(c, DataInvalida);
    erros := [];
    if c.nome == [] {
      erros := erros + [NomeObrigatorio];
    }
    assert erros == n;
    if !ValidEmail(c.email) {
      erros := erros + [EmailInvalido];
    }
    assert erros == n + e;
    if !ValidCpf(c.cpf) {
      erros := erros + [CpfInvalido];
    }
    assert erros == n + e + p;
    if !ValidDate(c.dataNascimento) {
      erros := erros + [DataInvalida];
    }
    assert erros == n + e + p + d;
  }

  /**
   * The loop body of `processar_lote_clientes` for one item: trim, check, and
   * insert the trimmed fields when no check fails.
   */
  method HandleItem(table: ClientTable, cliente: Item) returns (erros: seq<Reason>)
    requires table.Valid()
    modifies table
    ensures table.Valid()
    ensures erros == Outcome(cliente)
    ensures erros != [] ==> table.rows == old(table.rows) && table.nextId == old(table.nextId)
    ensures erros == [] ==>
      table.rows == old(table.rows)[old(table.nextId) := Trimmed(cliente)] && table.nextId == old(table.nextId) + 1
  {
    var c := Trimmed(cliente);
    erros := CheckItem(c);
    if erros == [] {
      table.Insert(c);
    }
  }

  /**
   * `processar_lote_clientes`. A payload that is not a list fails before any
   * item is read. Otherwise each item, in order, is trimmed and checked; a
   * rejected item goes to `falhas` and is not inserted, an accepted one is
   * inserted once with its trimmed fields and appended, as given, to `criadas`.
   */
  method ProcessBatch(table: ClientTable, payload: Payload) returns (r: Result<(seq<Item>, seq<Rejection>), string>)
    requires table.Valid()
    modifies table
    ensures table.Valid()
    ensures payload.NotAList? ==>
      r == Failure(NotAListMessage) && table.rows == old(table.rows) && table.nextId == old(table.nextId)
    ensures payload.ItemList? ==>
      && r == Success((Accepted(Outcome, payload.items), Rejections(Outcome, payload.items)))
      && table.rows == WithInserted(old(table.rows), old(table.nextId), TrimmedAll(Accepted(Outcome, payload.items)))
      && table.nextId == old(table.nextId) + |Accepted(Outcome, payload.items)|
  {
    if payload.NotAList? {
      return Failure(NotAListMessage);
    }
    var items := payload.items;
    var criadas: seq<Item> := [];
    var falhas: seq<Rejection> := [];
    ghost var rows0, next0 := table.rows, table.nextId;
    ghost var inserted: seq<Client> := [];
    for indice := 0 to |items|
      invariant table.Valid()
      invariant criadas == Accepted(Outcome, items[..indice])
      invariant falhas == Rejections(Outcome, items[..indice])
      invariant inserted == TrimmedAll(criadas)
      invariant table.rows == WithInserted(rows0, next0, inserted)
      invariant table.nextId == next0 + |criadas|
    {
      BatchStep(Outcome, items, indice);
      var cliente := items[indice];
      InsertedStep(rows0, next0, inserted, Trimmed(cliente), table.rows, table.nextId);
      var erros := HandleItem(table, cliente);
      if erros != [] {
        falhas := falhas + [Rejection(indice, cliente, erros)];
      } else {
        assert (criadas + [cliente])[..|criadas|] == criadas;
        criadas := criadas + [cliente];
        inserted := inserted + [Trimmed(cliente)];
      }
    }
    assert items[..|items|] == items;
    return Success((criadas, falhas));
  }
}
