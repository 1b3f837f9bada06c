/** Keyset pagination of packages/registry/src/storage.ts. */
module RegistryListing {
  import opened Wrappers
  import opened Lexicographic
  import opened Sequences
  import opened RegistryTables
  import Transactions = RegistryTransactions

  // `list` pages ordered by decoded AgentId, read one at a time while other transactions insert agents.

  function IdOf(row: AgentRow): AgentId {
    row.agentId
  }

  predicate IsAfter(row: AgentRow, after: Option<AgentId>) {
    after.None? || Less(after.value, row.agentId)
  }

  function RowsAfter(rows: seq<AgentRow>, after: Option<AgentId>): seq<AgentRow> {
    if rows == [] then []
    else if IsAfter(rows[0], after) then [rows[0]] + RowsAfter(rows[1..], after)
    else RowsAfter(rows[1..], after)
  }

  /** `... WHERE agent_id_bytes > after ORDER BY agent_id_bytes ASC`. */
  function OrderedAfter(rows: seq<AgentRow>, after: Option<AgentId>): seq<AgentRow> {
    SortBy(RowsAfter(rows, after), IdOf)
  }

  function Take<T>(xs: seq<T>, n: nat): seq<T> {
    if |xs| <= n then xs else xs[..n]
  }

  datatype Page = Page(rows: seq<AgentRow>, hasMore: bool)

  /** `makeList`: one row more than the page tells whether there is more. */
  function ListPage(rows: seq<AgentRow>, after: Option<AgentId>, pageSize: nat): Page {
    var selected := Take(OrderedAfter(rows, after), pageSize + 1);
    Page(Take(selected, pageSize), |selected| > pageSize)
  }

  /**
   * What a client collects by following pages. `tables[k]` is the agents table when page k is
   * read; `None` when the tables run out before `hasMore` is false.
   */
  function Collect(tables: seq<seq<AgentRow>>, after: Option<AgentId>, pageSize: nat): Option<seq<AgentRow>>
    requires pageSize > 0
  {
    if tables == [] then None
    else
      var page := ListPage(tables[0], after, pageSize);
      if !page.hasMore then Some(page.rows)
      else InFront(page.rows, Collect(tables[1..], Some(page.rows[|page.rows| - 1].agentId), pageSize))
  }

  function InFront(rows: seq<AgentRow>, rest: Option<seq<AgentRow>>): Option<seq<AgentRow>> {
    match rest
    case None => None
    case Some(more) => Some(rows + more)
  }

  /** Transactions only append to the agents table. */
  ghost predicate OnlyInserts(tables: seq<seq<AgentRow>>) {
    |tables| < 2 || (tables[0] <= tables[1] && OnlyInserts(tables[1..]))
  }

  ghost predicate IdsUnique(rows: seq<AgentRow>) {
    forall i, j :: 0 <= i < j < |rows| ==> rows[i].agentId != rows[j].agentId
  }

  lemma {:induction false} RowsAfterFacts(rows: seq<AgentRow>, after: Option<AgentId>)
    ensures forall row :: row in RowsAfter(rows, after) <==> row in rows && IsAfter(row, after)
    ensures IdsUnique(rows) ==> IdsUnique(RowsAfter(rows, after))
  {
    if rows != [] {
      RowsAfterFacts(rows[1..], after);
      assert rows == [rows[0]] + rows[1..];
      assert IdsUnique(rows) ==> IdsUnique(rows[1..]);
      var rest := RowsAfter(rows[1..], after);
      forall k | 0 <= k < |rest| && IdsUnique(rows) ensures rest[k].agentId != rows[0].agentId {
        assert rest[k] in rows[1..];
      }
    }
  }

  lemma {:induction false} UniqueIdsInMultiset(xs: seq<AgentRow>, ys: seq<AgentRow>)
    requires IdsUnique(xs) && multiset(xs) == multiset(ys)
    ensures IdsUnique(ys)
  {
    NoRepeatsOfPermutation(xs, ys);
    forall i, j | 0 <= i < j < |ys| ensures ys[i].agentId != ys[j].agentId {
      assert ys[i] in multiset(xs) && ys[j] in multiset(xs);
      assert ys[i] in xs && ys[j] in xs && ys[i] != ys[j];
    }
  }

  /** The rows a page draws from: exactly the later rows, strictly ascending. */
  lemma OrderedAfterFacts(rows: seq<AgentRow>, after: Option<AgentId>)
    requires IdsUnique(rows)
    ensures var ordered := OrderedAfter(rows, after);
      && AscendingBy(ordered, IdOf)
      && forall row :: row in ordered <==> row in rows && IsAfter(row, after)
  {
    RowsAfterFacts(rows, after);
    SortByFacts(RowsAfter(rows, after), IdOf);
    var ordered := OrderedAfter(rows, after);
    UniqueIdsInMultiset(RowsAfter(rows, after), ordered);
    SortedDistinctIsAscending(ordered, IdOf);
    forall row ensures row in ordered <==> row in RowsAfter(rows, after) {
      assert row in ordered <==> row in multiset(ordered);
      assert row in RowsAfter(rows, after) <==> row in multiset(RowsAfter(rows, after));
    }
  }

  lemma {:induction false} AscendingPrefix<T>(xs: seq<T>, key: T -> seq<int>, n: nat)
    requires AscendingBy(xs, key) && n <= |xs|
    ensures AscendingBy(xs[..n], key)
  {
    if n >= 2 {
      AscendingPrefix(xs[1..], key, n - 1);
      assert xs[..n][1..] == xs[1..][..n - 1];
    }
  }

  lemma {:induction false} AscendingAppend<T>(xs: seq<T>, ys: seq<T>, key: T -> seq<int>)
    requires AscendingBy(xs, key) && AscendingBy(ys, key)
    requires xs != [] && ys != [] ==> Less(key(xs[|xs| - 1]), key(ys[0]))
    ensures AscendingBy(xs + ys, key)
  {
    if xs == [] {
      assert xs + ys == ys;
    } else if |xs| == 1 {
      assert (xs + ys)[1..] == ys;
    } else {
      AscendingAppend(xs[1..], ys, key);
      assert (xs + ys)[1..] == xs[1..] + ys;
    }
  }

  /** A page with more behind it: every later row is on it or after its last row. */
  lemma PageFacts(rows: seq<AgentRow>, after: Option<AgentId>, pageSize: nat)
    requires pageSize > 0 && IdsUnique(rows)
    ensures var page := ListPage(rows, after, pageSize);
      && AscendingBy(page.rows, IdOf)
      && (forall row :: row in page.rows ==> row in rows && IsAfter(row, after))
      && (!page.hasMore ==> page.rows == OrderedAfter(rows, after))
      && (page.hasMore ==>
            (|page.rows| == pageSize
             && forall row :: row in rows && IsAfter(row, after) ==>
                  row in page.rows || Less(page.rows[pageSize - 1].agentId, row.agentId)))
  {
    OrderedAfterFacts(rows, after);
    var ordered := OrderedAfter(rows, after);
    var page := ListPage(rows, after, pageSize);
    if page.hasMore {
      assert page.rows == ordered[..pageSize];
      AscendingPrefix(ordered, IdOf, pageSize);
      forall row | row in page.rows ensures row in rows && IsAfter(row, after) {
        assert row in ordered;
      }
      forall row | row in rows && IsAfter(row, after)
        ensures row in page.rows || Less(page.rows[pageSize - 1].agentId, row.agentId)
      {
        assert row in ordered;
        var i :| 0 <= i < |ordered| && ordered[i] == row;
        if i < pageSize {
          assert page.rows[i] == row;
        } else {
          AscendingPairwise(ordered, IdOf, pageSize - 1, i);
        }
      }
    } else {
      assert page.rows == ordered;
    }
  }

  /**
   * Following pages while agents are inserted: the collected rows are strictly ascending, so no
   * agent appears twice; every agent later than `after` in the first table appears; and every
   * collected row was in the last table read.
   */
  lemma {:induction false} CollectFacts(tables: seq<seq<AgentRow>>, after: Option<AgentId>, pageSize: nat)
    requires pageSize > 0 && tables != [] && OnlyInserts(tables) && IdsUnique(tables[|tables| - 1])
    requires Collect(tables, after, pageSize).Some?
    ensures var all := Collect(tables, after, pageSize).value;
      && AscendingBy(all, IdOf)
      && (forall row :: row in tables[0] && IsAfter(row, after) ==> row in all)
      && (forall row :: row in all ==> row in tables[|tables| - 1] && IsAfter(row, after))
    decreases |tables|
  {
    FirstTableIsPrefix(tables);
    PageFacts(tables[0], after, pageSize);
    var page := ListPage(tables[0], after, pageSize);
    if page.hasMore {
      var last := page.rows[pageSize - 1].agentId;
      var rest := Collect(tables[1..], Some(last), pageSize).value;
      CollectFacts(tables[1..], Some(last), pageSize);
      assert page.rows[pageSize - 1] in page.rows;
      CollectStep(tables[0], tables[1], tables[|tables| - 1], after, page.rows, rest);
    } else {
      OrderedAfterFacts(tables[0], after);
    }
  }

  lemma CollectStep(rows: seq<AgentRow>, later: seq<AgentRow>, final: seq<AgentRow>, after: Option<AgentId>,
                    page: seq<AgentRow>, rest: seq<AgentRow>)
    requires rows <= later && rows <= final && page != []
    requires AscendingBy(page, IdOf) && AscendingBy(rest, IdOf)
    requires forall row :: row in page ==> row in rows && IsAfter(row, after)
    requires forall row :: row in rest ==> row in final
    requires forall row :: row in rows && IsAfter(row, after) ==>
      row in page || Less(page[|page| - 1].agentId, row.agentId)
    requires forall row :: row in later && IsAfter(row, Some(page[|page| - 1].agentId)) ==> row in rest
    requires forall row :: row in rest ==> IsAfter(row, Some(page[|page| - 1].agentId))
    ensures AscendingBy(page + rest, IdOf)
    ensures forall row :: row in rows && IsAfter(row, after) ==> row in page + rest
    ensures forall row :: row in page + rest ==> row in final && IsAfter(row, after)
  {
    var last := page[|page| - 1].agentId;
    assert page[|page| - 1] in page;
    if rest != [] { assert rest[0] in rest; }
    AscendingAppend(page, rest, IdOf);
    forall row | row in rest ensures IsAfter(row, after) {
      if after.Some? { LessIsTransitive(after.value, last, row.agentId); }
    }
    forall row | row in rows && IsAfter(row, after) ensures row in page + rest {
      if row !in page { assert row in later; }
    }
  }

  lemma {:induction false} FirstTableIsPrefix(tables: seq<seq<AgentRow>>)
    requires tables != [] && OnlyInserts(tables)
    ensures tables[0] <= tables[|tables| - 1]
  {
    if |tables| >= 2 { FirstTableIsPrefix(tables[1..]); }
  }

  /**
   * `list` from the start: strictly ascending, each agent of the first page's table exactly once,
   * nothing that was never there. The tables are those of the Registry, whose ids are unique.
   */
  lemma FollowingPagesListsEveryAgent(tables: seq<seq<AgentRow>>, pageSize: nat)
    requires pageSize > 0 && tables != [] && OnlyInserts(tables) && AgentsUnique(tables[|tables| - 1])
    requires Collect(tables, None, pageSize).Some?
    ensures var all := Collect(tables, None, pageSize).value;
      && (forall i, j :: 0 <= i < j < |all| ==> Less(all[i].agentId, all[j].agentId))
      && (forall row :: row in tables[0] ==> row in all && multiset(all)[row] == 1)
      && (forall row :: row in all ==> row in tables[|tables| - 1])
  {
    CollectFacts(tables, None, pageSize);
    var all := Collect(tables, None, pageSize).value;
    forall i, j | 0 <= i < j < |all| ensures Less(all[i].agentId, all[j].agentId) {
      AscendingPairwise(all, IdOf, i, j);
    }
    forall i, j | 0 <= i < j < |all| ensures all[i].agentId != all[j].agentId {
      LessIsTotal(all[i].agentId, all[j].agentId);
    }
    forall row | row in tables[0] ensures row in all && multiset(all)[row] == 1 {
      var k :| 0 <= k < |all| && all[k] == row;
      CountedOnce(all, all[k]);
    }
  }

  // ----- pages during transactions

  /** Each state follows the one before it by some interleaving of transaction steps. */
  ghost predicate Follow(states: seq<Transactions.State>) {
    |states| < 2 || (Leads(states[0], states[1]) && Follow(states[1..]))
  }

  ghost predicate Leads(s: Transactions.State, t: Transactions.State) {
    exists steps :: Transactions.After(s, steps) == Some(t)
  }

  /** The agents table as each page reads it. */
  function AgentsOf(states: seq<Transactions.State>): (tables: seq<seq<AgentRow>>)
    ensures |tables| == |states|
  {
    if states == [] then [] else [states[0].tables.agents] + AgentsOf(states[1..])
  }

  lemma {:induction false} TransactionsOnlyInsert(states: seq<Transactions.State>)
    requires states != [] && Follow(states) && Transactions.Reachable(states[0])
    ensures OnlyInserts(AgentsOf(states)) && AgentsUnique(AgentsOf(states)[|states| - 1])
  {
    if |states| == 1 {
      Transactions.ReachableTablesAreConsistent(states[0]);
      assert AgentsOf(states)[0] == states[0].tables.agents;
    } else {
      var steps :| Transactions.After(states[0], steps) == Some(states[1]);
      Transactions.RunsKeepAgents(states[0], steps);
      Transactions.RunsReach(states[0], steps);
      TransactionsOnlyInsert(states[1..]);
      assert AgentsOf(states)[1..] == AgentsOf(states[1..]);
      assert AgentsOf(states)[|states| - 1] == AgentsOf(states[1..])[|states| - 2];
    }
  }

  /**
   * The same over the interleaved transactions themselves: however registrations run between the
   * pages, each agent the first page's table held is listed exactly once, and none that never was.
   */
  lemma PagesDuringTransactions(states: seq<Transactions.State>, pageSize: nat)
    requires pageSize > 0 && states != [] && Transactions.Reachable(states[0]) && Follow(states)
    requires Collect(AgentsOf(states), None, pageSize).Some?
    ensures var all := Collect(AgentsOf(states), None, pageSize).value;
      && (forall i, j :: 0 <= i < j < |all| ==> Less(all[i].agentId, all[j].agentId))
      && (forall row :: row in states[0].tables.agents ==> row in all && multiset(all)[row] == 1)
      && (forall row :: row in all ==> row in AgentsOf(states)[|states| - 1])
  {
    TransactionsOnlyInsert(states);
    FollowingPagesListsEveryAgent(AgentsOf(states), pageSize);
    assert AgentsOf(states)[0] == states[0].tables.agents;
  }

  /** The same table at every page. */
  function Copies(rows: seq<AgentRow>, count: nat): (tables: seq<seq<AgentRow>>)
    ensures |tables| == count
  {
    if count == 0 then [] else [rows] + Copies(rows, count - 1)
  }

  lemma LastPage(tables: seq<seq<AgentRow>>, after: Option<AgentId>, pageSize: nat, page: Page)
    requires pageSize > 0 && tables != [] && page == ListPage(tables[0], after, pageSize) && !page.hasMore
    ensures Collect(tables, after, pageSize) == Some(page.rows)
  {
  }

  lemma NextPage(tables: seq<seq<AgentRow>>, others: seq<seq<AgentRow>>, after: Option<AgentId>, pageSize: nat,
                 page: Page, next: AgentId, rest: seq<AgentRow>)
    requires pageSize > 0 && tables != [] && tables[1..] == others
    requires page == ListPage(tables[0], after, pageSize) && page.hasMore && next == page.rows[|page.rows| - 1].agentId
    requires Collect(others, Some(next), pageSize) == Some(rest)
    ensures Collect(tables, after, pageSize) == Some(page.rows + rest)
  {
  }

  lemma FirstCopy(rows: seq<AgentRow>, count: nat)
    requires count > 0
    ensures Copies(rows, count) != [] && Copies(rows, count)[0] == rows
      && Copies(rows, count)[1..] == Copies(rows, count - 1)
  {
  }

  /** One page in front of the rest of the order. */
  lemma QuietPage(rows: seq<AgentRow>, after: Option<AgentId>, pageSize: nat, tables: seq<seq<AgentRow>>,
                  others: seq<seq<AgentRow>>)
    requires pageSize > 0 && IdsUnique(rows) && tables != [] && tables[0] == rows && tables[1..] == others
    requires |OrderedAfter(rows, after)| > pageSize
    requires var next := Some(OrderedAfter(rows, after)[pageSize - 1].agentId);
      Collect(others, next, pageSize) == Some(OrderedAfter(rows, next))
    ensures Collect(tables, after, pageSize) == Some(OrderedAfter(rows, after))
  {
    var ordered := OrderedAfter(rows, after);
    PageOfOrdered(rows, after, pageSize);
    RestOfOrder(rows, after, pageSize);
    NextPage(tables, others, after, pageSize, Page(ordered[..pageSize], true), ordered[pageSize - 1].agentId,
             ordered[pageSize..]);
    TakeThenRest(ordered, pageSize);
  }

  /** Without insertions, the pages end and together are the sorted table. */
  lemma {:induction false} QuietPagesAreTheSortedTable(rows: seq<AgentRow>, after: Option<AgentId>, pageSize: nat,
                                                       count: nat)
    requires pageSize > 0 && IdsUnique(rows) && count > |OrderedAfter(rows, after)|
    ensures Collect(Copies(rows, count), after, pageSize) == Some(OrderedAfter(rows, after))
    decreases count
  {
    var ordered := OrderedAfter(rows, after);
    FirstCopy(rows, count);
    if |ordered| > pageSize {
      RestOfOrder(rows, after, pageSize);
      QuietPagesAreTheSortedTable(rows, Some(ordered[pageSize - 1].agentId), pageSize, count - 1);
      QuietPage(rows, after, pageSize, Copies(rows, count), Copies(rows, count - 1));
    } else {
      PageOfOrdered(rows, after, pageSize);
      LastPage(Copies(rows, count), after, pageSize, ListPage(rows, after, pageSize));
    }
  }

  lemma TakeThenRest(rows: seq<AgentRow>, n: nat)
    requires n <= |rows|
    ensures rows[..n] + rows[n..] == rows
  {
  }

  lemma PageOfOrdered(rows: seq<AgentRow>, after: Option<AgentId>, pageSize: nat)
    ensures var ordered, page := OrderedAfter(rows, after), ListPage(rows, after, pageSize);
      page.hasMore == (|ordered| > pageSize)
      && page.rows == if |ordered| > pageSize then ordered[..pageSize] else ordered
  {
  }

  lemma {:induction false} AscendingSuffix<T>(xs: seq<T>, key: T -> seq<int>, n: nat)
    requires AscendingBy(xs, key) && n <= |xs|
    ensures AscendingBy(xs[n..], key)
  {
    if n > 0 {
      AscendingSuffix(xs[1..], key, n - 1);
      assert xs[n..] == xs[1..][n - 1..];
    }
  }

  lemma AfterIsInSuffix(ordered: seq<AgentRow>, n: nat, row: AgentRow)
    requires AscendingBy(ordered, IdOf) && 0 < n <= |ordered| && row in ordered
      && Less(ordered[n - 1].agentId, row.agentId)
    ensures row in ordered[n..]
  {
    var i :| 0 <= i < |ordered| && ordered[i] == row;
    LessIsTotal(row.agentId, ordered[n - 1].agentId);
    if i < n - 1 { AscendingPairwise(ordered, IdOf, i, n - 1); }
    assert ordered[n..][i - n] == row;
  }

  lemma SuffixIsAfter(ordered: seq<AgentRow>, n: nat, row: AgentRow)
    requires AscendingBy(ordered, IdOf) && 0 < n <= |ordered| && row in ordered[n..]
    ensures row in ordered && Less(ordered[n - 1].agentId, row.agentId)
  {
    var i :| 0 <= i < |ordered[n..]| && ordered[n..][i] == row;
    assert ordered[n + i] == row;
    AscendingPairwise(ordered, IdOf, n - 1, n + i);
  }

  /** The rows after the last row of a page are the rest of the order. */
  lemma RestOfOrder(rows: seq<AgentRow>, after: Option<AgentId>, n: nat)
    requires IdsUnique(rows) && 0 < n < |OrderedAfter(rows, after)|
    ensures var ordered := OrderedAfter(rows, after);
      OrderedAfter(rows, Some(ordered[n - 1].agentId)) == ordered[n..]
  {
    var ordered := OrderedAfter(rows, after);
    var last := ordered[n - 1].agentId;
    OrderedAfterFacts(rows, after);
    OrderedAfterFacts(rows, Some(last));
    AscendingSuffix(ordered, IdOf, n);
    var rest := OrderedAfter(rows, Some(last));
    forall row ensures row in rest <==> row in ordered[n..] {
      if row in rest {
        assert IsAfter(row, after) by {
          assert ordered[n - 1] in ordered;
          if after.Some? { LessIsTransitive(after.value, last, row.agentId); }
        }
        AfterIsInSuffix(ordered, n, row);
      }
      if row in ordered[n..] { SuffixIsAfter(ordered, n, row); }
    }
    SameElementsAscending(rest, ordered[n..]);
  }

  /** Strictly ascending sequences with the same elements are equal. */
  lemma {:induction false} SameElementsAscending(xs: seq<AgentRow>, ys: seq<AgentRow>)
    requires AscendingBy(xs, IdOf) && AscendingBy(ys, IdOf)
    requires forall row :: row in xs <==> row in ys
    ensures xs == ys
  {
    EmptyAlike(xs, ys);
    if xs != [] {
      assert xs[0] in ys;
      assert ys[0] in xs;
      AscendingIsSorted(xs, IdOf);
      AscendingIsSorted(ys, IdOf);
      SortedFirst(xs, IdOf, ys[0]);
      SortedFirst(ys, IdOf, xs[0]);
      LessIsTotal(xs[0].agentId, ys[0].agentId);
      FirstOnce(xs, ys[0]);
      FirstOnce(ys, xs[0]);
      assert xs == [xs[0]] + xs[1..] && ys == [ys[0]] + ys[1..];
      forall row ensures row in xs[1..] <==> row in ys[1..] {
        FirstOnce(xs, row);
        FirstOnce(ys, row);
        assert row in xs <==> row in ys;
      }
      SameElementsAscending(xs[1..], ys[1..]);
    }
  }

  lemma EmptyAlike(xs: seq<AgentRow>, ys: seq<AgentRow>)
    requires forall row :: row in xs <==> row in ys
    ensures xs == [] <==> ys == []
  {
    if xs != [] { assert xs[0] in xs; }
    if ys != [] { assert ys[0] in ys; }
  }

  lemma FirstOnce(xs: seq<AgentRow>, row: AgentRow)
    requires AscendingBy(xs, IdOf) && xs != []
    ensures row in xs[1..] ==> row.agentId != xs[0].agentId
  {
    if row in xs[1..] {
      var i :| 1 <= i < |xs| && xs[i] == row;
      AscendingPairwise(xs, IdOf, 0, i);
      LessIsTotal(xs[0].agentId, row.agentId);
    }
  }
}
