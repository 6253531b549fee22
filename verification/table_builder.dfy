/**
  The typed builders `TABLE.tr`, `TR.td` and the entry point `table`.

  A configuration block is modelled as the ordered list of builder calls
  it makes. Kotlin resolves an unqualified call inside a lambda with
  receiver against the innermost implicit receiver that has such a member,
  so inside a `td { }` block a `td { }` call reaches the enclosing TR and a
  `tr { }` call reaches the TABLE; inside a `tr { }` block `td` reaches
  that TR. A block therefore runs against two receivers: the table and the
  innermost row. `addItem` runs the block on the new item first and
  appends the item afterwards, so whatever the block added through an
  outer receiver lands before the item.
 */
module TableBuilder {
  import opened Markup
  import MarkupParse

  /** A builder call: `td { init }` or `tr { init }`. */
  datatype Call = Td(init: seq<Call>) | Tr(init: seq<Call>)

  /** The receivers a block inside a row sees: the TABLE and the innermost TR. */
  datatype Scope = Scope(table: Tag, row: Tag)

  /** The tag names the typed builders give their elements. */
  const TableName := "table"
  const RowName := "tr"
  const CellName := "td"

  /** `TD()`: an empty cell. */
  function NewTd(): (t: Tag)
    ensures IsTd(t)
  {
    NewTag(CellName)
  }

  /** `TR()`: a row with no cells yet. */
  function NewTr(): (t: Tag)
    ensures IsTr(t) && |t.items| == 0
  {
    NewTag(RowName)
  }

  /** `TABLE()`: a table with no rows yet. */
  function NewTable(): (t: Tag)
    ensures IsTable(t) && |t.items| == 0
  {
    NewTag(TableName)
  }

  /** A table block may call only `tr`: a TABLE has no `td` and no row encloses it. */
  predicate TableBlock(init: seq<Call>)
  {
    forall i :: 0 <= i < |init| ==> init[i].Tr?
  }

  /** `TABLE.tr(init)`: configure a fresh TR with `init`, then append it to the table. */
  function TableTr(table: Tag, init: seq<Call>): Tag
    decreases init, 1
  {
    var s := RunBlock(init, Scope(table, NewTr()));
    AddItem(s.table, s.row)
  }

  /** `TR.td(init)`: configure a fresh TD with `init`, then append it to the row. */
  function RowTd(sc: Scope, init: seq<Call>): Scope
    decreases init, 1
  {
    var s := RunBlock(init, sc);
    Scope(s.table, AddItem(s.row, NewTd()))
  }

  /** The effect of one call on the receivers of the block that makes it. */
  function RunCall(c: Call, sc: Scope): Scope
    decreases c, 2
  {
    match c
    case Td(init) => RowTd(sc, init)
    case Tr(init) => Scope(TableTr(sc.table, init), sc.row)
  }

  /** The effect of a block's calls, made in order, on its receivers. */
  function RunBlock(calls: seq<Call>, sc: Scope): Scope
    decreases calls, 0
  {
    if |calls| == 0 then sc
    else RunBlock(calls[1..], RunCall(calls[0], sc))
  }

  /** The calls of a table block, made in order on the table. */
  function RunTableBlock(calls: seq<Call>, table: Tag): Tag
    requires TableBlock(calls)
    decreases calls
  {
    if |calls| == 0 then table
    else RunTableBlock(calls[1..], TableTr(table, calls[0].init))
  }

  /** `table(init)`: a fresh TABLE with `init` applied to it. */
  function Table(init: seq<Call>): (t: Tag)
    requires TableBlock(init)
    ensures IsTable(t) && Depth(t) <= 3
  {
    RunTableBlockShape(init, NewTable());
    TableDepth(RunTableBlock(init, NewTable()));
    RunTableBlock(init, NewTable())
  }

  // ---------------------------------------------------------------------
  // Nesting discipline

  predicate IsTd(t: Tag) { t.name == CellName && |t.items| == 0 }

  predicate IsTr(t: Tag) { t.name == RowName && forall i :: 0 <= i < |t.items| ==> IsTd(t.items[i]) }

  predicate IsTable(t: Tag) { t.name == TableName && forall i :: 0 <= i < |t.items| ==> IsTr(t.items[i]) }

  predicate ScopeOk(sc: Scope) { IsTable(sc.table) && IsTr(sc.row) }

  lemma AddItemKeeps(parent: Tag, item: Tag, P: Tag -> bool)
    requires forall i :: 0 <= i < |parent.items| ==> P(parent.items[i])
    requires P(item)
    ensures forall i :: 0 <= i < |AddItem(parent, item).items| ==> P(AddItem(parent, item).items[i])
  {
  }

  /** Running any calls against well-shaped receivers leaves them well shaped. */
  lemma {:induction false} RunBlockShape(calls: seq<Call>, sc: Scope)
    requires ScopeOk(sc)
    ensures ScopeOk(RunBlock(calls, sc))
    decreases calls, 0
  {
    if |calls| > 0 {
      RunCallShape(calls[0], sc);
      RunBlockShape(calls[1..], RunCall(calls[0], sc));
    }
  }

  lemma {:induction false} RunCallShape(c: Call, sc: Scope)
    requires ScopeOk(sc)
    ensures ScopeOk(RunCall(c, sc))
    decreases c, 2
  {
    match c
    case Td(init) =>
      RunBlockShape(init, sc);
      var s := RunBlock(init, sc);
      AddItemKeeps(s.row, NewTd(), IsTd);
    case Tr(init) =>
      TableTrShape(sc.table, init);
  }

  lemma {:induction false} TableTrShape(table: Tag, init: seq<Call>)
    requires IsTable(table)
    ensures IsTable(TableTr(table, init))
    decreases init, 1
  {
    RunBlockShape(init, Scope(table, NewTr()));
    var s := RunBlock(init, Scope(table, NewTr()));
    AddItemKeeps(s.table, s.row, IsTr);
  }

  lemma {:induction false} RunTableBlockShape(calls: seq<Call>, table: Tag)
    requires TableBlock(calls) && IsTable(table)
    ensures IsTable(RunTableBlock(calls, table))
    decreases calls
  {
    if |calls| > 0 {
      TableTrShape(table, calls[0].init);
      RunTableBlockShape(calls[1..], TableTr(table, calls[0].init));
    }
  }

  /** A table-shaped tree is at most three levels deep. */
  lemma TableDepth(t: Tag)
    requires IsTable(t)
    ensures Depth(t) <= 3
  {
    forall i | 0 <= i < |t.items|
      ensures Depth(t.items[i]) <= 2
    {
      var r := t.items[i];
      forall j | 0 <= j < |r.items|
        ensures Depth(r.items[j]) == 1
      {
        assert IsTd(r.items[j]);
      }
      MaxDepthBound(r.items, 1);
    }
    MaxDepthBound(t.items, 2);
  }

  // ---------------------------------------------------------------------
  // Every call adds exactly one item, and nothing already added is lost

  /** Number of `tr` calls in a block, at any depth. */
  function TrCalls(calls: seq<Call>): nat
    decreases calls
  {
    if |calls| == 0 then 0
    else (if calls[0].Tr? then 1 else 0) + TrCalls(calls[0].init) + TrCalls(calls[1..])
  }

  /** Number of `td` calls in a block, at any depth. */
  function TdCalls(calls: seq<Call>): nat
    decreases calls
  {
    if |calls| == 0 then 0
    else (if calls[0].Td? then 1 else 0) + TdCalls(calls[0].init) + TdCalls(calls[1..])
  }

  /** Number of `td` calls that reach the block's own row: those not inside a `tr` block. */
  function RowTdCalls(calls: seq<Call>): nat
    decreases calls
  {
    if |calls| == 0 then 0
    else (if calls[0].Td? then 1 + RowTdCalls(calls[0].init) else 0) + RowTdCalls(calls[1..])
  }

  /** Total number of items of the given tags. */
  function Cells(ts: seq<Tag>): nat
    decreases |ts|
  {
    if |ts| == 0 then 0 else |ts[0].items| + Cells(ts[1..])
  }

  lemma {:induction false} CellsAppend(xs: seq<Tag>, x: Tag)
    ensures Cells(xs + [x]) == Cells(xs) + |x.items|
    decreases |xs|
  {
    if |xs| == 0 {
      assert xs + [x] == [x];
      assert [x][1..] == [];
    } else {
      assert (xs + [x])[1..] == xs[1..] + [x];
      CellsAppend(xs[1..], x);
    }
  }

  /** How a block's calls change its receivers: names kept, items only appended, one per call. */
  ghost predicate Grew(calls: seq<Call>, sc: Scope, r: Scope)
  {
    && r.table.name == sc.table.name
    && r.row.name == sc.row.name
    && sc.table.items <= r.table.items
    && sc.row.items <= r.row.items
    && |r.table.items| == |sc.table.items| + TrCalls(calls)
    && |r.row.items| == |sc.row.items| + RowTdCalls(calls)
    && Cells(r.table.items) + RowTdCalls(calls) == Cells(sc.table.items) + TdCalls(calls)
  }

  lemma {:induction false} RunBlockGrows(calls: seq<Call>, sc: Scope)
    ensures Grew(calls, sc, RunBlock(calls, sc))
    decreases calls, 0
  {
    if |calls| > 0 {
      var c := calls[0];
      var mid := RunCall(c, sc);
      RunCallGrows(c, sc);
      RunBlockGrows(calls[1..], mid);
      assert [c][0] == c && [c][1..] == [];
      assert TrCalls(calls) == TrCalls([c]) + TrCalls(calls[1..]);
      assert TdCalls(calls) == TdCalls([c]) + TdCalls(calls[1..]);
      assert RowTdCalls(calls) == RowTdCalls([c]) + RowTdCalls(calls[1..]);
    }
  }

  lemma {:induction false} RunCallGrows(c: Call, sc: Scope)
    ensures Grew([c], sc, RunCall(c, sc))
    decreases c, 2
  {
    assert [c][0] == c && [c][1..] == [];
    match c
    case Td(init) =>
      RunBlockGrows(init, sc);
      var s := RunBlock(init, sc);
      assert sc.row.items <= s.row.items + [NewTd()];
    case Tr(init) =>
      TableTrGrows(sc.table, init);
  }

  /** `tr` appends, after whatever its block added to the table, one TR holding the block's own `td`s. */
  lemma {:induction false} TableTrGrows(table: Tag, init: seq<Call>)
    ensures var r := TableTr(table, init);
      && r.name == table.name
      && table.items <= r.items
      && |r.items| == |table.items| + TrCalls(init) + 1
      && r.items[..|r.items| - 1] == RunBlock(init, Scope(table, NewTr())).table.items
      && r.items[|r.items| - 1].name == RowName
      && |r.items[|r.items| - 1].items| == RowTdCalls(init)
      && Cells(r.items) == Cells(table.items) + TdCalls(init)
    decreases init, 1
  {
    var sc := Scope(table, NewTr());
    RunBlockGrows(init, sc);
    var s := RunBlock(init, sc);
    CellsAppend(s.table.items, s.row);
    assert table.items <= s.table.items + [s.row];
  }

  lemma {:induction false} RunTableBlockCounts(calls: seq<Call>, table: Tag)
    requires TableBlock(calls)
    ensures |RunTableBlock(calls, table).items| == |table.items| + TrCalls(calls)
    ensures Cells(RunTableBlock(calls, table).items) == Cells(table.items) + TdCalls(calls)
    decreases calls
  {
    if |calls| > 0 {
      TableTrGrows(table, calls[0].init);
      RunTableBlockCounts(calls[1..], TableTr(table, calls[0].init));
    }
  }

  /** The table holds one TR per `tr` call and, across its rows, one TD per `td` call. */
  lemma TableCounts(init: seq<Call>)
    requires TableBlock(init)
    ensures |Table(init).items| == TrCalls(init)
    ensures Cells(Table(init).items) == TdCalls(init)
  {
    RunTableBlockCounts(init, NewTable());
  }

  // ---------------------------------------------------------------------
  // Direct blocks: every call made on its own receiver

  /** A row block whose calls are all `td { }` with an empty block. */
  predicate DirectRow(calls: seq<Call>)
  {
    forall i :: 0 <= i < |calls| ==> calls[i] == Td([])
  }

  /** A table block whose calls are all `tr { ... }` with a direct row block. */
  predicate DirectTable(init: seq<Call>)
  {
    forall i :: 0 <= i < |init| ==> init[i].Tr? && DirectRow(init[i].init)
  }

  /** `n` empty TDs. */
  function EmptyTds(n: nat): (r: seq<Tag>)
    ensures |r| == n
  {
    if n == 0 then [] else [NewTd()] + EmptyTds(n - 1)
  }

  lemma {:induction false} DirectRowRun(calls: seq<Call>, sc: Scope)
    requires DirectRow(calls)
    ensures RunBlock(calls, sc) == Scope(sc.table, sc.row.(items := sc.row.items + EmptyTds(|calls|)))
    decreases |calls|
  {
    if |calls| == 0 {
      assert sc.row.items + EmptyTds(0) == sc.row.items;
    } else {
      assert calls[0] == Td([]);
      assert RunBlock([], sc) == sc;
      var mid := RunCall(calls[0], sc);
      assert mid == Scope(sc.table, sc.row.(items := sc.row.items + [NewTd()]));
      DirectRowRun(calls[1..], mid);
      assert EmptyTds(|calls|) == [NewTd()] + EmptyTds(|calls| - 1);
      assert sc.row.items + [NewTd()] + EmptyTds(|calls| - 1) == sc.row.items + EmptyTds(|calls|);
    }
  }

  /** `tr` with a direct row block appends one TR holding one TD per call. */
  lemma DirectTableTr(table: Tag, init: seq<Call>)
    requires DirectRow(init)
    ensures TableTr(table, init) == AddItem(table, Tag(RowName, EmptyTds(|init|)))
  {
    DirectRowRun(init, Scope(table, NewTr()));
    assert NewTr().items + EmptyTds(|init|) == EmptyTds(|init|);
  }

  lemma {:induction false} DirectTableRun(calls: seq<Call>, table: Tag)
    requires DirectTable(calls)
    ensures var r := RunTableBlock(calls, table);
      && r.name == table.name
      && |r.items| == |table.items| + |calls|
      && r.items[..|table.items|] == table.items
      && forall i :: 0 <= i < |calls| ==> r.items[|table.items| + i] == Tag(RowName, EmptyTds(|calls[i].init|))
    decreases |calls|
  {
    if |calls| > 0 {
      var n := |table.items|;
      var mid := TableTr(table, calls[0].init);
      DirectTableTr(table, calls[0].init);
      assert DirectTable(calls[1..]) by {
        forall i | 0 <= i < |calls| - 1
          ensures calls[1..][i].Tr? && DirectRow(calls[1..][i].init)
        {
          assert calls[1..][i] == calls[i + 1];
        }
      }
      DirectTableRun(calls[1..], mid);
      var r := RunTableBlock(calls, table);
      assert r == RunTableBlock(calls[1..], mid);
      assert r.items[..n + 1] == mid.items;
      forall i | 0 <= i < |calls|
        ensures r.items[n + i] == Tag(RowName, EmptyTds(|calls[i].init|))
      {
        if i == 0 {
          assert r.items[n] == r.items[..n + 1][n];
        } else {
          assert calls[1..][i - 1] == calls[i];
          assert r.items[(n + 1) + (i - 1)] == Tag(RowName, EmptyTds(|calls[i].init|));
        }
      }
      assert r.items[..n] == r.items[..n + 1][..n];
    }
  }

  /** For a direct block, `table` holds exactly one TR per `tr` call, in call order,
      and each TR exactly one TD per `td` call of its block. */
  lemma DirectTableShape(init: seq<Call>)
    requires DirectTable(init)
    ensures TableBlock(init)
    ensures |Table(init).items| == |init|
    ensures forall i :: 0 <= i < |init| ==> Table(init).items[i] == Tag(RowName, EmptyTds(|init[i].init|))
  {
    assert TableBlock(init);
    var t := NewTable();
    assert |t.items| == 0;
    DirectTableRun(init, t);
    var r := RunTableBlock(init, t);
    assert Table(init) == r;
    assert forall i :: 0 <= i < |init| ==> r.items[i] == r.items[|t.items| + i];
  }

  /** The direct block that writes a given tree out call by call. */
  function BlockOf(t: Tag): (init: seq<Call>)
    ensures DirectTable(init) && |init| == |t.items|
  {
    seq(|t.items|, i requires 0 <= i < |t.items| => Tr(seq(|t.items[i].items|, j => Td([]))))
  }

  lemma {:induction false} EmptyTdsAreTds(n: nat)
    ensures forall j :: 0 <= j < n ==> EmptyTds(n)[j] == NewTd()
  {
    if n > 0 {
      EmptyTdsAreTds(n - 1);
      assert forall j :: 1 <= j < n ==> EmptyTds(n)[j] == EmptyTds(n - 1)[j - 1];
    }
  }

  /** A TR whose items are all empty TDs is determined by how many there are. */
  lemma TrIsEmptyTds(r: Tag)
    requires IsTr(r)
    ensures r == Tag(RowName, EmptyTds(|r.items|))
  {
    EmptyTdsAreTds(|r.items|);
    forall j | 0 <= j < |r.items|
      ensures r.items[j] == EmptyTds(|r.items|)[j]
    {
      assert IsTd(r.items[j]);
    }
  }

  /** Every table-shaped tree is what `table` builds from its direct block. */
  lemma TableOfBlockOf(t: Tag)
    requires IsTable(t)
    ensures TableBlock(BlockOf(t)) && Table(BlockOf(t)) == t
  {
    var b := BlockOf(t);
    DirectTableShape(b);
    var u := Table(b);
    forall i | 0 <= i < |t.items|
      ensures u.items[i] == t.items[i]
    {
      TrIsEmptyTds(t.items[i]);
    }
    assert u.items == t.items;
  }

  /** A direct block is recovered from the tree `table` builds from it. */
  lemma BlockOfTable(init: seq<Call>)
    requires DirectTable(init)
    ensures TableBlock(init) && BlockOf(Table(init)) == init
  {
    DirectTableShape(init);
    var t := Table(init);
    var b := BlockOf(t);
    forall i | 0 <= i < |init|
      ensures b[i] == init[i]
    {
      assert t.items[i] == Tag(RowName, EmptyTds(|init[i].init|));
      assert b[i].init == init[i].init;
    }
  }

  /** The trees `table` can build are exactly the table-shaped trees. */
  lemma TableBuildsExactlyTables(t: Tag)
    ensures IsTable(t) <==> exists init :: TableBlock(init) && Table(init) == t
  {
    if IsTable(t) {
      TableOfBlockOf(t);
    }
  }

  // ---------------------------------------------------------------------
  // Rendering built tables

  /** The names table, tr and td are readable back from markup. */
  lemma TableIsValid(t: Tag)
    requires IsTable(t)
    ensures MarkupParse.Valid(t)
  {
    assert MarkupParse.ValidName(t.name);
    forall i | 0 <= i < |t.items|
      ensures MarkupParse.Valid(t.items[i])
    {
      var r := t.items[i];
      assert MarkupParse.ValidName(r.name);
      forall j | 0 <= j < |r.items|
        ensures MarkupParse.Valid(r.items[j])
      {
        assert IsTd(r.items[j]);
        assert MarkupParse.ValidName(r.items[j].name);
      }
    }
  }

  /** Two table blocks render to the same markup exactly when they build the same tree. */
  lemma TableRenderDeterminesTree(a: seq<Call>, b: seq<Call>)
    requires TableBlock(a) && TableBlock(b)
    ensures Render(Table(a)) == Render(Table(b)) <==> Table(a) == Table(b)
  {
    TableIsValid(Table(a));
    TableIsValid(Table(b));
    MarkupParse.RenderInjective(Table(a), Table(b));
  }

  /** `table { tr { td { } } }` renders as the test expects. */
  lemma RenderTableTrTd()
    ensures TableBlock([Tr([Td([])])])
    ensures Render(Table([Tr([Td([])])])) == "<table><tr><td></td></tr></table>"
  {
    DirectTableShape([Tr([Td([])])]);
    assert Table([Tr([Td([])])]).items[0] == Tag(RowName, EmptyTds(1));
    assert Table([Tr([Td([])])]) == Tag(TableName, [Tag(RowName, [Tag(CellName, [])])]);
    RenderOneCell();
  }

  /** An empty TR renders as `<tr></tr>`. */
  lemma RenderEmptyRow()
    ensures Render(NewTr()) == "<tr></tr>"
  {
    RenderEmpty(RowName);
  }

  /** A TR holding one empty TD renders as `<tr><td></td></tr>`. */
  lemma RenderOneCellRow()
    ensures Render(Tag(RowName, [NewTd()])) == "<tr><td></td></tr>"
  {
    RenderEmpty(CellName);
    RenderSingle(RowName, NewTd());
    assert "<" + RowName + ">" + "<td></td>" == "<tr><td></td>";
  }

  lemma RenderOneCell()
    ensures Render(Tag(TableName, [Tag(RowName, [NewTd()])])) == "<table><tr><td></td></tr></table>"
  {
    RenderOneCellRow();
    RenderSingle(TableName, Tag(RowName, [NewTd()]));
    assert "<" + TableName + ">" + "<tr><td></td></tr>" == "<table><tr><td></td></tr>";
  }

  lemma RenderTwoRows()
    ensures Render(Tag(TableName, [NewTr(), Tag(RowName, [NewTd()])]))
         == "<table><tr></tr><tr><td></td></tr></table>"
  {
    RenderEmptyRow();
    RenderOneCellRow();
    RenderPair(TableName, NewTr(), Tag(RowName, [NewTd()]));
    assert "<" + TableName + ">" + "<tr></tr>" == "<table><tr></tr>";
    assert "<table><tr></tr>" + "<tr><td></td></tr>" == "<table><tr></tr><tr><td></td></tr>";
  }

  /** Because `addItem` configures before appending, a `tr` called from inside a
      `td` block lands in the table ahead of the row that encloses it. */
  lemma RenderOuterReceiverCall()
    ensures TableBlock([Tr([Td([Tr([])])])])
    ensures Render(Table([Tr([Td([Tr([])])])])) == "<table><tr></tr><tr><td></td></tr></table>"
  {
    OuterReceiverTree();
    RenderTwoRows();
  }

  lemma OuterReceiverTree()
    ensures TableBlock([Tr([Td([Tr([])])])])
    ensures Table([Tr([Td([Tr([])])])]) == Tag(TableName, [Tag(RowName, []), Tag(RowName, [Tag(CellName, [])])])
  {
    var early := Tag(RowName, []);
    var late := Tag(RowName, [Tag(CellName, [])]);
    var t0 := NewTable();
    var sc := Scope(t0, NewTr());
    var tables := Scope(Tag(TableName, [early]), NewTr());
    // the inner `tr { }` reaches the table while the outer row is still being configured
    assert TableTr(t0, []) == Tag(TableName, [early]);
    assert RunCall(Tr([]), sc) == tables;
    assert [Tr([])][1..] == [];
    assert RunBlock([Tr([])], sc) == RunBlock([], tables);
    // then the `td` it was written in is appended to that outer row
    assert RowTd(sc, [Tr([])]) == Scope(Tag(TableName, [early]), late);
    assert [Td([Tr([])])][1..] == [];
    assert RunBlock([Td([Tr([])])], sc) == Scope(Tag(TableName, [early]), late);
    // and finally the outer row is appended to the table
    assert TableTr(t0, [Td([Tr([])])]) == Tag(TableName, [early, late]);
    assert [Tr([Td([Tr([])])])][1..] == [];
    assert [Tr([Td([Tr([])])])][0].init == [Td([Tr([])])];
  }
}
