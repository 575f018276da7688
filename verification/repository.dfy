/**
 * The `clientes` table and the six repository operations on it
 * (`inserir_cliente`, `listar_clientes`, `buscar_cliente_por_id`,
 * `buscar_clientes_por_nome`, `atualizar_cliente`, `excluir_cliente`).
 * The table is a map from `id` to the five text columns plus SQLite's
 * AUTOINCREMENT counter; no operation validates the texts it stores.
 */
module Repository {
  import opened Wrappers
  import opened SqlLike

  /** The five text columns of `clientes`: nome, email, telefone, cpf, data_nascimento. */
  datatype Client = Client(nome: string, email: string, telefone: string, cpf: string, dataNascimento: string)

  /** A row as the SELECT statements return it: the `id` and the five columns. */
  datatype Row = Row(id: int, client: Client)

  predicate IdsIncreasing(rs: seq<Row>) {
    forall i, j :: 0 <= i < j < |rs| ==> rs[i].id < rs[j].id
  }

  /** The rows of `rs` whose `nome` is LIKE `pattern`, in their order. */
  function FilterByName(rs: seq<Row>, pattern: string): (r: seq<Row>)
    ensures forall row :: row in r <==> row in rs && Like(pattern, row.client.nome)
    ensures IdsIncreasing(rs) ==> IdsIncreasing(r)
  {
    if rs == [] then []
    else
      var tail := FilterByName(rs[1..], pattern);
      HeadAndTail(rs);
      if Like(pattern, rs[0].client.nome) then
        HeadBelowTail(rs, tail);
        [rs[0]] + tail
      else tail
  }

  /** A row of a non-empty sequence is its first row or a row of the rest. */
  lemma HeadAndTail(rs: seq<Row>)
    requires rs != []
    ensures forall row :: row in rs <==> row == rs[0] || row in rs[1..]
  {
    assert rs == [rs[0]] + rs[1..];
  }

  /** In increasing rows, the first id is below every id drawn from the rest. */
  lemma HeadBelowTail(rs: seq<Row>, tail: seq<Row>)
    requires rs != [] && forall row :: row in tail ==> row in rs[1..]
    ensures IdsIncreasing(rs) ==> forall k :: 0 <= k < |tail| ==> rs[0].id < tail[k].id
  {
    if IdsIncreasing(rs) {
      forall k | 0 <= k < |tail|
        ensures rs[0].id < tail[k].id
      {
        assert tail[k] in rs[1..];
      }
    }
  }

  /** When every row matches, filtering keeps the sequence as it is. */
  lemma {:induction false} FilterKeepsAllMatching(rs: seq<Row>, pattern: string)
    requires forall row :: row in rs ==> Like(pattern, row.client.nome)
    ensures FilterByName(rs, pattern) == rs
  {
    if rs != [] {
      var tail := rs[1..];
      assert rs[0] in rs;
      assert forall row :: row in tail ==> row in rs;
      FilterKeepsAllMatching(tail, pattern);
      assert rs == [rs[0]] + tail;
    }
  }

  class ClientTable {
    /** The rows of `clientes`, keyed by `id`. */
    var rows: map<int, Client>
    /** One more than the largest `id` ever handed out (AUTOINCREMENT never reuses an id). */
    var nextId: int

    ghost predicate Valid()
      reads this
    {
      1 <= nextId && forall id :: id in rows ==> 1 <= id < nextId
    }

    /** `criar_tabela` on a fresh database: no rows, and the first id will be 1. */
    constructor ()
      ensures Valid() && rows == map[] && nextId == 1
    {
      rows := map[];
      nextId := 1;
    }

    /**
     * `inserir_cliente`: one new row holding the five texts as given, under an
     * id larger than every id handed out before; the other rows are untouched.
     * The source returns nothing, so neither does this.
     */
    method Insert(c: Client)
      requires Valid()
      modifies this
      ensures Valid()
      ensures forall id :: id in old(rows) ==> id < old(nextId)
      ensures rows == old(rows)[old(nextId) := c]
      ensures nextId == old(nextId) + 1
      ensures Get(old(nextId)) == Some(Row(old(nextId), c))
    {
      rows := rows[nextId := c];
      nextId := nextId + 1;
    }

    /** The rows whose id lies in `[lo, hi)`, by increasing id. */
    function RowsBetween(lo: int, hi: int): (r: seq<Row>)
      reads this
      decreases hi - lo
      ensures forall row :: row in r <==> lo <= row.id < hi && row.id in rows && rows[row.id] == row.client
      ensures forall k :: 0 <= k < |r| ==> lo <= r[k].id < hi
      ensures IdsIncreasing(r)
    {
      if hi <= lo then []
      else
        var tail := RowsBetween(lo + 1, hi);
        if lo in rows then [Row(lo, rows[lo])] + tail else tail
    }

    /**
     * `listar_clientes`: every row exactly once. The SELECT has no ORDER BY;
     * this model lists by increasing id, which is also the order of insertion.
     */
    function List(): (r: seq<Row>)
      reads this
      requires Valid()
      ensures forall row :: row in r <==> row.id in rows && rows[row.id] == row.client
      ensures IdsIncreasing(r)
    {
      RowsBetween(1, nextId)
    }

    /** `buscar_cliente_por_id`: the row with that id, or None (`fetchone()` returning None). */
    function Get(id: int): (r: Option<Row>)
      reads this
      ensures r.None? <==> id !in rows
      ensures r.Some? ==> r.value.id == id && r.value.client == rows[id]
    {
      if id in rows then Some(Row(id, rows[id])) else None
    }

    /**
     * `buscar_clientes_por_nome`: the rows of the listing whose `nome` is LIKE
     * `'%' + part + '%'`, in the listing's order.
     */
    function SearchByName(part: string): (r: seq<Row>)
      reads this
      requires Valid()
      ensures forall row :: row in r <==> row in List() && Like(SubstringPattern(part), row.client.nome)
      ensures IdsIncreasing(r)
    {
      FilterByName(List(), SubstringPattern(part))
    }

    /**
     * `atualizar_cliente`: all five columns of the row with that id replaced;
     * for an absent id no row matches the WHERE and the table is unchanged.
     * The source reports neither case to its caller.
     */
    method Update(id: int, c: Client)
      requires Valid()
      modifies this
      ensures Valid()
      ensures rows == if id in old(rows) then old(rows)[id := c] else old(rows)
      ensures nextId == old(nextId)
    {
      if id in rows {
        rows := rows[id := c];
      }
    }

    /**
     * `excluir_cliente`: the row with that id removed, all others kept; for an
     * absent id nothing changes, so a second call is a no-op. The counter is
     * not lowered: the id is never handed out again.
     */
    method Delete(id: int)
      requires Valid()
      modifies this
      ensures Valid()
      ensures rows == old(rows) - {id}
      ensures id !in old(rows) ==> rows == old(rows)
      ensures nextId == old(nextId)
    {
      rows := rows - {id};
    }
  }

  /** `buscar_cliente_por_id` finds exactly the rows `listar_clientes` shows. */
  lemma GetAgreesWithList(t: ClientTable, id: int)
    requires t.Valid()
    ensures t.Get(id).Some? <==> exists row :: row in t.List() && row.id == id
    ensures t.Get(id).Some? ==> t.Get(id).value in t.List()
  {
    if id in t.rows {
      assert Row(id, t.rows[id]) in t.List();
    }
  }

  /** An empty search text lists every row. */
  lemma SearchEmptyListsAll(t: ClientTable)
    requires t.Valid()
    ensures t.SearchByName("") == t.List()
  {
    forall row | row in t.List()
      ensures Like(SubstringPattern(""), row.client.nome)
    {
      EmptyNeedleMatchesAll(row.client.nome);
    }
    FilterKeepsAllMatching(t.List(), SubstringPattern(""));
  }

  /** With no `%` or `_` in it, the search text is matched as an ASCII case-insensitive substring of `nome`. */
  lemma SearchIsSubstringMatch(t: ClientTable, part: string, row: Row)
    requires t.Valid() && NoWildcards(part)
    ensures row in t.SearchByName(part) <==> row in t.List() && ContainsFolded(row.client.nome, part)
  {
    SubstringSearch(part, row.client.nome);
  }
}
