/**
 * The movies list: adding a title at the end of the ranking, and rewriting
 * the ranks from a client-supplied order. The movies table is an object whose
 * rows the handlers update in place.
 */
module Movies {

  import opened Wrappers
  import Text

  /** A row of the movies table. */
  datatype Movie = Movie(id: int, title: string, rank: int)

  /** The reply of `/update_ranks`. */
  datatype RankReply = NoOrderProvided | RanksSaved {
    function Status(): int {
      if NoOrderProvided? then 400 else 200
    }
  }

  /** `SELECT MAX(rank) FROM movies`: NULL on an empty table. */
  function MaxRank(rows: seq<Movie>): (r: Option<int>)
    ensures r.None? <==> rows == []
    ensures r.Some? ==> exists k :: 0 <= k < |rows| && rows[k].rank == r.value
    ensures r.Some? ==> forall k :: 0 <= k < |rows| ==> rows[k].rank <= r.value
  {
    if rows == [] then None
    else
      var last := rows[|rows| - 1].rank;
      match MaxRank(rows[..|rows| - 1])
      case None => Some(last)
      case Some(m) => Some(if m < last then last else m)
  }

  /** `(max_rank or 0) + 1`: one past the largest rank, or 1 on an empty table. */
  function NewRank(rows: seq<Movie>): (r: int)
    ensures forall k :: 0 <= k < |rows| ==> rows[k].rank < r
    ensures rows == [] ==> r == 1
    ensures rows != [] ==> exists k :: 0 <= k < |rows| && rows[k].rank == r - 1
  {
    var maxRank := MaxRank(rows);
    (if maxRank.Some? && maxRank.value != 0 then maxRank.value else 0) + 1
  }

  /** The 1-based position of the last occurrence of `id` in `order`. */
  function LastPosition(order: seq<int>, id: int): (p: nat)
    requires id in order
    ensures 1 <= p <= |order| && order[p - 1] == id
    ensures forall j :: p <= j < |order| ==> order[j] != id
  {
    if order[|order| - 1] == id then |order|
    else
      assert id in order[..|order| - 1] by {
        var i :| 0 <= i < |order| && order[i] == id;
        assert order[..|order| - 1][i] == id;
      }
      LastPosition(order[..|order| - 1], id)
  }

  /** `UPDATE movies SET rank = ? WHERE id = ?`. */
  function SetRank(rows: seq<Movie>, id: int, rank: int): seq<Movie> {
    seq(|rows|, k requires 0 <= k < |rows| => if rows[k].id == id then rows[k].(rank := rank) else rows[k])
  }

  /**
   * The table once every id of `order` has been given its position: a listed
   * row takes the position of the id's last occurrence (a later UPDATE
   * overwrites an earlier one); every other row is left as it was.
   */
  function Reranked(rows: seq<Movie>, order: seq<int>): seq<Movie> {
    seq(|rows|, k requires 0 <= k < |rows| =>
      if rows[k].id in order then rows[k].(rank := LastPosition(order, rows[k].id)) else rows[k])
  }

  /** Issuing one more UPDATE, for the next position, extends the reranking by one id. */
  lemma RerankedStep(rows: seq<Movie>, order: seq<int>, id: int)
    ensures Reranked(rows, order + [id]) == SetRank(Reranked(rows, order), id, |order| + 1)
  {
    var extended := order + [id];
    forall k | 0 <= k < |rows|
      ensures Reranked(rows, extended)[k] == SetRank(Reranked(rows, order), id, |order| + 1)[k]
    {
      var rowId := rows[k].id;
      if rowId != id && rowId in extended {
        assert rowId in order by {
          var i :| 0 <= i < |extended| && extended[i] == rowId;
          assert order[i] == rowId;
        }
        var p := LastPosition(extended, rowId);
        var q := LastPosition(order, rowId);
        assert extended[q - 1] == rowId;
        assert p == q;
      }
    }
  }

  /** Reranking keeps every row, its id and its title: only ranks change. */
  lemma RerankedKeepsRows(rows: seq<Movie>, order: seq<int>)
    ensures |Reranked(rows, order)| == |rows|
    ensures forall k :: 0 <= k < |rows| ==>
      Reranked(rows, order)[k].id == rows[k].id && Reranked(rows, order)[k].title == rows[k].title
  {
  }

  /**
   * A row whose id is listed gets the 1-based position of the id's last
   * occurrence in the order; a row whose id is not listed keeps its rank.
   */
  lemma RerankedRank(rows: seq<Movie>, order: seq<int>, k: nat)
    requires k < |rows|
    ensures var rank := Reranked(rows, order)[k].rank;
      if rows[k].id in order then
        && 1 <= rank <= |order| && order[rank - 1] == rows[k].id
        && forall j :: rank <= j < |order| ==> order[j] != rows[k].id
      else rank == rows[k].rank
  {
  }

  /** An id listed exactly once, at 0-based index `i`, gets rank `i + 1`. */
  lemma SingleOccurrenceGetsItsPosition(rows: seq<Movie>, order: seq<int>, k: nat, i: nat)
    requires k < |rows| && i < |order| && order[i] == rows[k].id
    requires forall j :: 0 <= j < |order| && j != i ==> order[j] != rows[k].id
    ensures Reranked(rows, order)[k].rank == i + 1
  {
    assert rows[k].id in order;
  }

  /**
   * Sending each id of the table once gives distinct ranks between 1 and the
   * length of the order: the ranking is a permutation of the positions.
   */
  lemma FullOrderGivesDistinctRanks(rows: seq<Movie>, order: seq<int>)
    requires forall i, j :: 0 <= i < j < |rows| ==> rows[i].id != rows[j].id
    requires forall k :: 0 <= k < |rows| ==> rows[k].id in order
    ensures forall k :: 0 <= k < |rows| ==> 1 <= Reranked(rows, order)[k].rank <= |order|
    ensures forall k, l :: 0 <= k < l < |rows| ==> Reranked(rows, order)[k].rank != Reranked(rows, order)[l].rank
  {
    var r := Reranked(rows, order);
    forall k, l | 0 <= k < l < |rows| ensures r[k].rank != r[l].rank {
      assert order[r[k].rank - 1] == rows[k].id;
      assert order[r[l].rank - 1] == rows[l].id;
    }
  }

  /**
   * An order that lists row ids once each gives every rank from 1 to the
   * length of the order to some row: rank `i + 1` goes to the row whose id
   * is the order's i-th entry.
   */
  lemma FullOrderGivesDenseRanks(rows: seq<Movie>, order: seq<int>)
    requires forall i, j :: 0 <= i < j < |order| ==> order[i] != order[j]
    requires forall i :: 0 <= i < |order| ==> exists k :: 0 <= k < |rows| && rows[k].id == order[i]
    ensures forall i :: 0 <= i < |order| ==>
      exists k :: 0 <= k < |rows| && rows[k].id == order[i] && Reranked(rows, order)[k].rank == i + 1
  {
    forall i | 0 <= i < |order|
      ensures exists k :: 0 <= k < |rows| && rows[k].id == order[i] && Reranked(rows, order)[k].rank == i + 1
    {
      var k :| 0 <= k < |rows| && rows[k].id == order[i];
      SingleOccurrenceGetsItsPosition(rows, order, k, i);
    }
    assert forall i :: 0 <= i < |order| ==> exists k :: 0 <= k < |rows| && rows[k].id == order[i] && Reranked(rows, order)[k].rank == i + 1;
  }

  /** `id` is the primary key, and every existing id was handed out before `nextId`. */
  ghost predicate WellKeyed(rows: seq<Movie>, nextId: int) {
    && (forall i, j :: 0 <= i < j < |rows| ==> rows[i].id != rows[j].id)
    && (forall k :: 0 <= k < |rows| ==> rows[k].id < nextId)
  }

  /** Inserting a row under the next id keeps the keys well formed. */
  lemma InsertKeepsWellKeyed(rows: seq<Movie>, nextId: int, row: Movie)
    requires WellKeyed(rows, nextId) && row.id == nextId
    ensures WellKeyed(rows + [row], nextId + 1)
  {
  }

  /** The movies table. */
  class MovieTable {
    var rows: seq<Movie>
    /** The id the database assigns to the next inserted row. */
    var nextId: int

    ghost predicate Valid()
      reads this
    {
      WellKeyed(rows, nextId)
    }

    constructor ()
      ensures Valid() && rows == []
    {
      rows := [];
      nextId := 1;
    }

    /**
     * The insert branch of the `/movies` handler: a title that is not blank is
     * inserted, as typed, with a rank one past the largest, so it is listed
     * last; a blank title inserts nothing.
     */
    method AddMovie(title: string) returns (added: bool)
      requires Valid()
      modifies this
      ensures Valid()
      ensures added <==> !Text.IsBlank(title)
      ensures added ==> rows == old(rows) + [Movie(old(nextId), title, NewRank(old(rows)))]
      ensures added ==> nextId == old(nextId) + 1
      ensures !added ==> rows == old(rows) && nextId == old(nextId)
    {
      added := Text.Strip(title) != [];
      Text.StripEmptyIffBlank(title);
      if added {
        var row := Movie(nextId, title, NewRank(rows));
        InsertKeepsWellKeyed(rows, nextId, row);
        rows, nextId := rows + [row], nextId + 1;
      }
    }

    /**
     * The `/update_ranks` handler: a missing or empty order is refused with
     * status 400 and the table is left alone; otherwise the i-th id of the
     * order (counting from 1) gets rank i, one UPDATE per entry, in order.
     */
    method UpdateRanks(order: Option<seq<int>>) returns (reply: RankReply)
      requires Valid()
      modifies this
      ensures Valid() && nextId == old(nextId)
      ensures reply == (if order.None? || order.value == [] then NoOrderProvided else RanksSaved)
      ensures reply.Status() == (if order.None? || order.value == [] then 400 else 200)
      ensures reply.NoOrderProvided? ==> rows == old(rows)
      ensures reply.RanksSaved? ==> rows == Reranked(old(rows), order.value)
    {
      if order.None? || order.value == [] {
        return NoOrderProvided;
      }
      var ids := order.value;
      for i := 0 to |ids|
        invariant rows == Reranked(old(rows), ids[..i])
        invariant nextId == old(nextId)
      {
        RerankedStep(old(rows), ids[..i], ids[i]);
        assert ids[..i + 1] == ids[..i] + [ids[i]];
        rows := SetRank(rows, ids[i], i + 1);
      }
      assert ids[..|ids|] == ids;
      RerankedKeepsRows(old(rows), ids);
      reply := RanksSaved;
    }
  }
}
