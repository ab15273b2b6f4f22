/** The variables document of a table, grouped by concept, and its flattening into the
    columns of a data frame. */
module Variables {
  import opened Wrappers
  import opened Seqs
  import opened Dicts

  /** The attributes of one variable (`label`, `concept`, `predicateType`, ...). */
  type Attributes = Dict<string, string>

  /** The `variables` object of the document: variable name -> attributes. */
  type Document = Dict<string, Attributes>

  /** concept -> the entries of its variables. */
  type Groups = Dict<string, seq<Attributes>>

  /** The entry recorded for a variable: `{'variable': name}` updated with its
      attributes, then with its `concept` key deleted. */
  function Entry(name: string, attrs: Attributes): Attributes
  {
    Remove(Update([("variable", name)], attrs), "concept")
  }

  /** The concepts of the variables that have one, in document order, one element per
      such variable. */
  function Seen(doc: Document): seq<string>
  {
    if doc == [] then []
    else
      var c := Get(doc[|doc| - 1].1, "concept");
      if c.Some? then Seen(doc[..|doc| - 1]) + [c.value] else Seen(doc[..|doc| - 1])
  }

  /** The entries of the variables of concept `c`, in document order. */
  function Members(doc: Document, c: string): seq<Attributes>
  {
    if doc == [] then []
    else
      var v := doc[|doc| - 1];
      if Get(v.1, "concept") == Some(c) then Members(doc[..|doc| - 1], c) + [Entry(v.0, v.1)]
      else Members(doc[..|doc| - 1], c)
  }

  /** Reference definition of the grouping: one group per concept, in the order in which
      the concepts first appear, each holding its members. */
  function Grouped(doc: Document): Groups
  {
    var cs := Dedup(Seen(doc));
    seq(|cs|, j requires 0 <= j < |cs| => (cs[j], Members(doc, cs[j])))
  }

  /** The number of entries over all groups. */
  function Total(groups: Groups): nat
  {
    if groups == [] then 0 else Total(groups[..|groups| - 1]) + |groups[|groups| - 1].1|
  }

  lemma UnfoldSeen(doc: Document, v: (string, Attributes))
    ensures Seen(doc + [v]) ==
      if Get(v.1, "concept").Some? then Seen(doc) + [Get(v.1, "concept").value] else Seen(doc)
  {
    assert (doc + [v])[..|doc|] == doc;
  }

  lemma UnfoldMembers(doc: Document, v: (string, Attributes), c: string)
    ensures Members(doc + [v], c) ==
      if Get(v.1, "concept") == Some(c) then Members(doc, c) + [Entry(v.0, v.1)] else Members(doc, c)
  {
    assert (doc + [v])[..|doc|] == doc;
  }

  lemma {:induction false} MembersOutside(doc: Document, c: string)
    requires c !in Seen(doc)
    ensures Members(doc, c) == []
  {
    if doc != [] {
      MembersOutside(doc[..|doc| - 1], c);
    }
  }

  lemma {:induction false} TotalUpdate(groups: Groups, j: nat, es: seq<Attributes>)
    requires j < |groups|
    ensures Total(groups[j := (groups[j].0, es)]) == Total(groups) - |groups[j].1| + |es|
  {
    var n := |groups| - 1;
    var g' := groups[j := (groups[j].0, es)];
    assert g'[..n] == if j < n then groups[..n][j := (groups[j].0, es)] else groups[..n];
    if j < n {
      TotalUpdate(groups[..n], j, es);
    }
  }

  lemma TotalSnoc(groups: Groups, g: (string, seq<Attributes>))
    ensures Total(groups + [g]) == Total(groups) + |g.1|
  {
    assert (groups + [g])[..|groups|] == groups;
  }

  /** Adding one variable to the document changes the grouping the way the loop body
      does: a variable without a concept changes nothing; one of a concept seen before
      extends that concept's group in place; one of a new concept opens a new group at
      the end. */
  lemma GroupedSnoc(doc: Document, v: (string, Attributes))
    ensures var c := Get(v.1, "concept"); var g, g' := Grouped(doc), Grouped(doc + [v]);
      if c.None? then g' == g
      else if c.value in Keys(g) then
        var j := FirstIndex(Keys(g), c.value);
        g' == g[j := (c.value, g[j].1 + [Entry(v.0, v.1)])]
      else g' == g + [(c.value, [Entry(v.0, v.1)])]
  {
    var c := Get(v.1, "concept");
    assert Keys(Grouped(doc)) == Dedup(Seen(doc));
    DedupElements(Seen(doc));
    if c.None? {
      UnfoldSeen(doc, v);
      MembersSnoc(doc, v);
    } else if c.value in Seen(doc) {
      GroupedSnocSeen(doc, v);
    } else {
      GroupedSnocNew(doc, v);
    }
  }

  lemma MembersSnoc(doc: Document, v: (string, Attributes))
    ensures forall c' ::
              Members(doc + [v], c') ==
              (if Get(v.1, "concept") == Some(c') then Members(doc, c') + [Entry(v.0, v.1)] else Members(doc, c'))
  {
    forall c' ensures Members(doc + [v], c') ==
      if Get(v.1, "concept") == Some(c') then Members(doc, c') + [Entry(v.0, v.1)] else Members(doc, c')
    {
      UnfoldMembers(doc, v, c');
    }
  }

  /** A variable of a concept seen before extends that concept's group in place. */
  lemma GroupedSnocSeen(doc: Document, v: (string, Attributes))
    requires Get(v.1, "concept").Some? && Get(v.1, "concept").value in Seen(doc)
    ensures var c := Get(v.1, "concept").value; var g, g' := Grouped(doc), Grouped(doc + [v]);
      var cs := Dedup(Seen(doc));
      c in cs && g' == g[FirstIndex(cs, c) := (c, g[FirstIndex(cs, c)].1 + [Entry(v.0, v.1)])]
  {
    var c := Get(v.1, "concept").value;
    var g, g' := Grouped(doc), Grouped(doc + [v]);
    var cs := Dedup(Seen(doc));
    var e := Entry(v.0, v.1);
    assert c in cs by {
      DedupElements(Seen(doc));
    }
    assert Dedup(Seen(doc + [v])) == cs by {
      UnfoldSeen(doc, v);
      DedupSnoc(Seen(doc), c);
    }
    var j := FirstIndex(cs, c);
    assert NoDuplicates(cs) by {
      DedupNoDuplicates(Seen(doc));
    }
    forall k | 0 <= k < |g'| ensures g'[k] == g[j := (c, g[j].1 + [e])][k] {
      UnfoldMembers(doc, v, cs[k]);
      assert cs[k] == c <==> k == j;
    }
  }

  /** A variable of a new concept opens a group at the end. */
  lemma GroupedSnocNew(doc: Document, v: (string, Attributes))
    requires Get(v.1, "concept").Some? && Get(v.1, "concept").value !in Seen(doc)
    ensures var c := Get(v.1, "concept").value;
      Grouped(doc + [v]) == Grouped(doc) + [(c, [Entry(v.0, v.1)])]
  {
    var c := Get(v.1, "concept").value;
    var g, g' := Grouped(doc), Grouped(doc + [v]);
    var cs := Dedup(Seen(doc));
    var e := Entry(v.0, v.1);
    assert Dedup(Seen(doc + [v])) == cs + [c] by {
      UnfoldSeen(doc, v);
      DedupSnoc(Seen(doc), c);
    }
    forall k | 0 <= k < |g'| ensures g'[k] == (g + [(c, [e])])[k] {
      if k < |cs| {
        assert cs[k] != c by {
          DedupElements(Seen(doc));
        }
        UnfoldMembers(doc, v, cs[k]);
      } else {
        UnfoldMembers(doc, v, c);
        MembersOutside(doc, c);
        assert [] + [e] == [e];
      }
    }
  }

  /** Every variable that has a concept contributes exactly one entry. */
  lemma {:induction false} GroupedCount(doc: Document)
    ensures Total(Grouped(doc)) == |Seen(doc)|
  {
    if doc != [] {
      var p, v := doc[..|doc| - 1], doc[|doc| - 1];
      assert doc == p + [v];
      GroupedCount(p);
      GroupedSnoc(p, v);
      UnfoldSeen(p, v);
      var c := Get(v.1, "concept");
      var g := Grouped(p);
      if c.Some? {
        if c.value in Seen(p) {
          DedupElements(Seen(p));
          assert c.value in Keys(g);
          var j := FirstIndex(Keys(g), c.value);
          TotalUpdate(g, j, g[j].1 + [Entry(v.0, v.1)]);
        } else {
          TotalSnoc(g, (c.value, [Entry(v.0, v.1)]));
        }
      }
    }
  }

  /** The groups, in order, are the concepts of the document without repeats in
      first-seen order, and each group lists exactly its concept's members. */
  lemma GroupedShape(doc: Document)
    ensures Keys(Grouped(doc)) == Dedup(Seen(doc))
    ensures Distinct(Grouped(doc))
    ensures forall c :: c in Keys(Grouped(doc)) <==> c in Seen(doc)
    ensures forall j :: 0 <= j < |Grouped(doc)| ==> Grouped(doc)[j].1 == Members(doc, Grouped(doc)[j].0)
  {
    assert Keys(Grouped(doc)) == Dedup(Seen(doc));
    DedupNoDuplicates(Seen(doc));
    DedupElements(Seen(doc));
  }

  /** A concept's group holds, in document order, the entries of the variables of that
      concept and of no other. */
  lemma {:induction false} MembersElements(doc: Document, c: string, e: Attributes)
    ensures e in Members(doc, c) <==>
      exists i :: 0 <= i < |doc| && Get(doc[i].1, "concept") == Some(c) && e == Entry(doc[i].0, doc[i].1)
  {
    if doc != [] {
      var p, v := doc[..|doc| - 1], doc[|doc| - 1];
      assert doc == p + [v];
      MembersElements(p, c, e);
      UnfoldMembers(p, v, c);
      if e in Members(p, c) {
        var i :| 0 <= i < |p| && Get(p[i].1, "concept") == Some(c) && e == Entry(p[i].0, p[i].1);
        assert doc[i] == p[i];
      }
      if exists i :: 0 <= i < |doc| && Get(doc[i].1, "concept") == Some(c) && e == Entry(doc[i].0, doc[i].1) {
        var i :| 0 <= i < |doc| && Get(doc[i].1, "concept") == Some(c) && e == Entry(doc[i].0, doc[i].1);
        if i < |p| { assert p[i] == doc[i]; }
      }
    }
  }

  /** An entry has no `concept` key, its keys are distinct, it always has a `variable`
      key, and it holds the variable's name there unless the attributes themselves carry
      a `variable` attribute, which then wins. */
  lemma EntryShape(name: string, attrs: Attributes)
    ensures Clean(Entry(name, attrs))
    ensures "variable" in Keys(Entry(name, attrs))
    ensures Distinct(attrs) ==> forall k ::
      Get(Entry(name, attrs), k) ==
        if k == "concept" then None
        else if k in Keys(attrs) then Get(attrs, k)
        else if k == "variable" then Some(name)
        else None
  {
    var start: Attributes := [("variable", name)];
    var u := Update(start, attrs);
    assert Keys(start) == ["variable"];
    KeysUpdate(start, attrs);
    KeysRemove(u, "concept");
    DedupNoDuplicates(["variable"] + Keys(attrs));
    DedupElements(["variable"] + Keys(attrs));
    WithoutNoDuplicates(Keys(u), "concept");
    WithoutElements(Keys(u), "concept");
    assert "variable" in ["variable"] + Keys(attrs);
    assert "variable" in Keys(Entry(name, attrs));
    if Distinct(attrs) {
      forall k ensures Get(Entry(name, attrs), k) ==
        if k == "concept" then None
        else if k in Keys(attrs) then Get(attrs, k)
        else if k == "variable" then Some(name)
        else None
      {
        GetRemove(u, "concept", k);
        GetUpdate(start, attrs, k);
      }
    }
  }

  /** An entry as the flattening loop expects it. */
  predicate Clean(e: Attributes)
  {
    Distinct(e) && |e| >= 1 && "concept" !in Keys(e)
  }

  /** The loop body of the grouping for one variable. */
  method AddToGroup(groups: Groups, ghost seen: Document, name: string, attrs: Attributes)
    returns (groups': Groups)
    requires groups == Grouped(seen)
    ensures groups' == Grouped(seen + [(name, attrs)])
  {
    GroupedSnoc(seen, (name, attrs));
    GetSome(attrs, "concept");
    groups' := groups;
    if "concept" in Keys(attrs) {
      var concept := Get(attrs, "concept").value;
      var newVariable := Entry(name, attrs);
      if concept !in Keys(groups') {
        PutAt(groups', concept, []);
        groups' := Put(groups', concept, []);
        OpenedGroup(groups, concept, newVariable);
      } else {
        GetAt(groups', concept);
        PutAt(groups', concept, groups'[FirstIndex(Keys(groups'), concept)].1 + [newVariable]);
      }
      groups' := Put(groups', concept, Get(groups', concept).value + [newVariable]);
    }
  }

  /** Opening a group with `[]` and then appending to it gives a one-entry group at the end. */
  lemma OpenedGroup(groups: Groups, c: string, e: Attributes)
    requires c !in Keys(groups)
    ensures var g := groups + [(c, [])];
      Get(g, c) == Some([]) && Put(g, c, [] + [e]) == groups + [(c, [e])]
  {
    var g := groups + [(c, [])];
    assert Keys(g) == Keys(groups) + [c];
    assert FirstIndex(Keys(g), c) == |groups|;
    GetAt(g, c);
    PutAt(g, c, [] + [e]);
    assert [] + [e] == [e];
  }

  /** Groups the variables of the document by concept; variables without a concept are
      left out. */
  method GroupByConcept(doc: Document) returns (groups: Groups)
    ensures groups == Grouped(doc)
  {
    groups := [];
    ghost var seen: Document := [];
    var i := 0;
    while i < |doc|
      invariant 0 <= i <= |doc| && seen == doc[..i]
      invariant groups == Grouped(seen)
    {
      var (name, attrs) := doc[i];
      groups := AddToGroup(groups, seen, name, attrs);
      assert doc[..i + 1] == seen + [(name, attrs)];
      seen := seen + [(name, attrs)];
      i := i + 1;
    }
    assert seen == doc;
  }

  // The flattening of the groups into the columns of a data frame.

  /** One row of the frame: the concept of a group and one entry of that group. */
  type Row = (string, Attributes)

  /** A frame column by column; its column order is kept beside it. */
  type Frame = map<string, seq<Option<string>>>

  /** The rows of one group, in entry order. */
  function GroupRows(g: (string, seq<Attributes>)): seq<Row>
  {
    seq(|g.1|, k requires 0 <= k < |g.1| => (g.0, g.1[k]))
  }

  /** The rows of all groups, group by group. */
  function Rows(groups: Groups): seq<Row>
  {
    if groups == [] then [] else Rows(groups[..|groups| - 1]) + GroupRows(groups[|groups| - 1])
  }

  /** The attribute keys of the rows, row by row, repeats included. */
  function RowKeys(rows: seq<Row>): seq<string>
  {
    if rows == [] then [] else RowKeys(rows[..|rows| - 1]) + Keys(rows[|rows| - 1].1)
  }

  /** Reference definition of the column list: `concept`, then every attribute key in the
      order in which it is first seen. */
  function Columns(groups: Groups): seq<string>
  {
    Dedup(["concept"] + RowKeys(Rows(groups)))
  }

  /** The value a row holds in a column: its concept in `concept`, the attribute's value
      where the entry has that attribute, and None (the padding) where it has not. */
  function Cell(row: Row, column: string): Option<string>
  {
    if column == "concept" then Some(row.0) else Get(row.1, column)
  }

  function Column(rows: seq<Row>, column: string): seq<Option<string>>
  {
    seq(|rows|, i requires 0 <= i < |rows| => Cell(rows[i], column))
  }

  /** Reference definition of the frame over the given columns. */
  function FrameOf(columns: seq<string>, rows: seq<Row>): Frame
  {
    map c | c in columns :: Column(rows, c)
  }

  /** Every group entry is as the grouping makes it. */
  predicate AllClean(groups: Groups)
  {
    forall i, k :: 0 <= i < |groups| && 0 <= k < |groups[i].1| ==> Clean(groups[i].1[k])
  }

  lemma RowsSnoc(groups: Groups, i: nat)
    requires i < |groups|
    ensures Rows(groups[..i + 1]) == Rows(groups[..i]) + GroupRows(groups[i])
  {
    assert groups[..i + 1][..i] == groups[..i];
  }

  lemma RowKeysSnoc(rows: seq<Row>, r: Row)
    ensures RowKeys(rows + [r]) == RowKeys(rows) + Keys(r.1)
  {
    assert (rows + [r])[..|rows|] == rows;
  }

  lemma {:induction false} RowKeysAppend(a: seq<Row>, b: seq<Row>)
    ensures RowKeys(a + b) == RowKeys(a) + RowKeys(b)
    decreases |b|
  {
    if b != [] {
      var b', r := b[..|b| - 1], b[|b| - 1];
      assert a + b == (a + b') + [r] && b == b' + [r];
      RowKeysAppend(a, b');
      RowKeysSnoc(a + b', r);
      RowKeysSnoc(b', r);
    } else {
      assert a + b == a;
    }
  }

  lemma {:induction false} RowsAppend(g1: Groups, g2: Groups)
    ensures Rows(g1 + g2) == Rows(g1) + Rows(g2)
    decreases |g2|
  {
    if g2 != [] {
      var g2', g := g2[..|g2| - 1], g2[|g2| - 1];
      assert (g1 + g2)[..|g1 + g2| - 1] == g1 + g2';
      RowsAppend(g1, g2');
    } else {
      assert g1 + g2 == g1;
    }
  }

  lemma {:induction false} RowKeysMember(rows: seq<Row>, j: nat, k: string)
    requires j < |rows| && k in Keys(rows[j].1)
    ensures k in RowKeys(rows)
  {
    var p := rows[..|rows| - 1];
    if j < |p| {
      RowKeysMember(p, j, k);
    }
  }

  /** Every attribute key of every entry is one of the columns. */
  lemma KeysAreColumns(groups: Groups, i: nat, j: nat)
    requires i < |groups| && j < |groups[i].1|
    ensures forall k :: k in Keys(groups[i].1[j]) ==> k in Columns(groups)
  {
    var before, after := groups[..i], groups[i + 1..];
    assert groups == before + [groups[i]] + after;
    RowsAppend(before + [groups[i]], after);
    RowsAppend(before, [groups[i]]);
    assert [groups[i]][..0] == [];
    var mine := GroupRows(groups[i]);
    RowKeysAppend(Rows(before) + mine, Rows(after));
    RowKeysAppend(Rows(before), mine);
    forall k | k in Keys(groups[i].1[j]) ensures k in Columns(groups) {
      RowKeysMember(mine, j, k);
      DedupElements(["concept"] + RowKeys(Rows(groups)));
    }
  }

  /** The frame has exactly the given columns, each as long as there are rows. */
  lemma FrameOfShape(columns: seq<string>, rows: seq<Row>)
    ensures forall c :: c in FrameOf(columns, rows) <==> c in columns
    ensures forall c :: c in FrameOf(columns, rows) ==> |FrameOf(columns, rows)[c]| == |rows|
  {
  }

  lemma FrameOfSnoc(columns: seq<string>, rows: seq<Row>, r: Row)
    ensures var f := FrameOf(columns, rows);
      FrameOf(columns, rows + [r]) == map c | c in f :: f[c] + [Cell(r, c)]
  {
    var f := FrameOf(columns, rows);
    forall c | c in columns ensures Column(rows + [r], c) == Column(rows, c) + [Cell(r, c)] {
    }
  }

  /** The first loop of the flattening, for one entry: each key not yet a column becomes
      one. */
  method AddColumns(columns: seq<string>, keys: seq<string>) returns (columns': seq<string>)
    requires NoDuplicates(columns)
    ensures columns' == Dedup(columns + keys)
  {
    DedupIdempotent(columns);
    assert columns + keys[..0] == columns;
    columns' := columns;
    var t := 0;
    while t < |keys|
      invariant 0 <= t <= |keys|
      invariant columns' == Dedup(columns + keys[..t])
    {
      DedupElements(columns + keys[..t]);
      DedupSnoc(columns + keys[..t], keys[t]);
      assert columns + keys[..t + 1] == (columns + keys[..t]) + [keys[t]];
      if keys[t] !in columns' {
        columns' := columns' + [keys[t]];
      }
      t := t + 1;
    }
    assert keys[..|keys|] == keys;
  }

  /** The column list of the frame. */
  method CollectColumns(groups: Groups) returns (columns: seq<string>)
    ensures columns == Columns(groups)
  {
    columns := ["concept"];
    assert Dedup(["concept"]) == ["concept"] by {
      DedupSnoc([], "concept");
      assert [] + ["concept"] == ["concept"];
    }
    ghost var rows: seq<Row> := [];
    var i := 0;
    while i < |groups|
      invariant 0 <= i <= |groups|
      invariant rows == Rows(groups[..i])
      invariant columns == Dedup(["concept"] + RowKeys(rows))
    {
      var (concept, entries) := groups[i];
      var j := 0;
      while j < |entries|
        invariant 0 <= j <= |entries|
        invariant rows == Rows(groups[..i]) + GroupRows(groups[i])[..j]
        invariant columns == Dedup(["concept"] + RowKeys(rows))
      {
        ColumnsStep(rows, (concept, entries[j]));
        columns := AddColumns(columns, Keys(entries[j]));
        GroupRowsPrefix(groups[i], j);
        rows := rows + [(concept, entries[j])];
        j := j + 1;
      }
      assert GroupRows(groups[i])[..j] == GroupRows(groups[i]);
      RowsSnoc(groups, i);
      i := i + 1;
    }
    assert groups[..i] == groups;
  }

  lemma GroupRowsPrefix(g: (string, seq<Attributes>), j: nat)
    requires j < |g.1|
    ensures GroupRows(g)[..j + 1] == GroupRows(g)[..j] + [(g.0, g.1[j])]
  {
  }

  /** Adding the keys of one more row to the first-seen column list. */
  lemma ColumnsStep(rows: seq<Row>, r: Row)
    ensures NoDuplicates(Dedup(["concept"] + RowKeys(rows)))
    ensures Dedup(Dedup(["concept"] + RowKeys(rows)) + Keys(r.1)) == Dedup(["concept"] + RowKeys(rows + [r]))
  {
    var a, ks := ["concept"] + RowKeys(rows), Keys(r.1);
    DedupNoDuplicates(a);
    assert a + ks == ["concept"] + RowKeys(rows + [r]) by {
      RowKeysSnoc(rows, r);
    }
    calc {
      Dedup(Dedup(a) + ks);
      { DedupOfDedup(a, ks); }
      Dedup(a + ks);
    }
  }

  /** `{column: [] for column in columns}` */
  method EmptyFrame(columns: seq<string>) returns (frame: Frame)
    ensures frame == FrameOf(columns, [])
  {
    frame := map[];
    var p := 0;
    while p < |columns|
      invariant 0 <= p <= |columns|
      invariant frame == map c | c in columns[..p] :: []
    {
      assert columns[..p + 1] == columns[..p] + [columns[p]];
      frame := frame[columns[p] := []];
      p := p + 1;
    }
    assert columns[..p] == columns;
    assert forall c :: Column([], c) == [];
  }

  /** The second loop of the flattening, for one entry: the concept goes to `concept`,
      each attribute to its column, and every column left one short is padded with None,
      so that all columns grow by exactly one. */
  method AddRow(columns: seq<string>, frame: Frame, concept: string, entry: Attributes)
    returns (frame': Frame)
    requires NoDuplicates(columns) && "concept" in columns
    requires forall c :: c in frame <==> c in columns
    requires forall c :: c in frame ==> |frame[c]| == |frame["concept"]|
    requires Clean(entry) && forall k :: k in Keys(entry) ==> k in columns
    ensures frame' == map c | c in frame :: frame[c] + [Cell((concept, entry), c)]
  {
    var maxColLen;
    frame', maxColLen := AppendAttributes(frame, concept, entry);
    frame' := PadColumns(columns, frame, frame', concept, entry, maxColLen);
  }

  /** The concept and the attributes of one entry appended to their columns; the last
      column written is then one longer than the others were. */
  method AppendAttributes(frame: Frame, concept: string, entry: Attributes)
    returns (frame': Frame, maxColLen: nat)
    requires "concept" in frame
    requires forall c :: c in frame ==> |frame[c]| == |frame["concept"]|
    requires Clean(entry) && forall k :: k in Keys(entry) ==> k in frame
    ensures forall c :: c in frame' <==> c in frame
    ensures forall c :: c in frame' ==>
      frame'[c] == frame[c] + (if c == "concept" || c in Keys(entry) then [Cell((concept, entry), c)] else [])
    ensures maxColLen == |frame["concept"]| + 1
  {
    ghost var n := |frame["concept"]|;
    var keys := Keys(entry);
    frame' := frame["concept" := frame["concept"] + [Some(concept)]];
    maxColLen := 0;  // always set below: an entry has at least one key
    var t := 0;
    while t < |keys|
      invariant 0 <= t <= |keys|
      invariant forall c :: c in frame' <==> c in frame
      invariant forall c :: c in frame' ==>
        frame'[c] == frame[c] + (if c == "concept" || c in keys[..t] then [Cell((concept, entry), c)] else [])
      invariant t > 0 ==> maxColLen == n + 1
    {
      var k := keys[t];
      GetSome(entry, k);
      assert k !in keys[..t];
      assert keys[..t + 1] == keys[..t] + [k];
      var value := Get(entry, k).value;
      frame' := frame'[k := frame'[k] + [Some(value)]];
      maxColLen := |frame'[k]|;
      t := t + 1;
    }
    assert keys[..t] == keys;
  }

  /** Every column shorter than the longest gets a None: exactly the columns that the
      entry has no value for. */
  method PadColumns(columns: seq<string>, ghost frame: Frame, written: Frame, concept: string,
                    entry: Attributes, maxColLen: nat)
    returns (frame': Frame)
    requires NoDuplicates(columns)
    requires forall c :: c in frame <==> c in columns
    requires forall c :: c in frame ==> |frame[c]| + 1 == maxColLen
    requires Clean(entry)
    requires forall c :: c in written <==> c in frame
    requires forall c :: c in written ==>
      written[c] == frame[c] + (if c == "concept" || c in Keys(entry) then [Cell((concept, entry), c)] else [])
    ensures frame' == map c | c in frame :: frame[c] + [Cell((concept, entry), c)]
  {
    frame' := written;
    var p := 0;
    while p < |columns|
      invariant 0 <= p <= |columns|
      invariant forall c :: c in frame' <==> c in frame
      invariant forall c :: c in frame' ==>
        frame'[c] == frame[c] + (if c == "concept" || c in Keys(entry) || c in columns[..p] then [Cell((concept, entry), c)] else [])
    {
      var col := columns[p];
      assert col !in columns[..p];
      assert columns[..p + 1] == columns[..p] + [col];
      ghost var hasValue := col == "concept" || col in Keys(entry);
      assert |frame'[col]| < maxColLen <==> !hasValue;
      if |frame'[col]| < maxColLen {
        assert Cell((concept, entry), col) == None by {
          GetSome(entry, col);
        }
        frame' := frame'[col := frame'[col] + [None]];
      }
      p := p + 1;
    }
    assert columns[..p] == columns;
  }

  /** `pull_concepts_and_variables(as_dataframe=True)`: the groups flattened into one row
      per entry, under the columns `concept` and every attribute key. */
  method Flatten(groups: Groups) returns (columns: seq<string>, frame: Frame)
    requires AllClean(groups)
    ensures columns == Columns(groups)
    ensures frame == FrameOf(columns, Rows(groups))
  {
    columns := CollectColumns(groups);
    assert NoDuplicates(columns) && "concept" in columns by {
      DedupNoDuplicates(["concept"] + RowKeys(Rows(groups)));
      DedupElements(["concept"] + RowKeys(Rows(groups)));
    }
    frame := EmptyFrame(columns);
    ghost var rows: seq<Row> := [];
    var i := 0;
    while i < |groups|
      invariant 0 <= i <= |groups|
      invariant rows == Rows(groups[..i])
      invariant frame == FrameOf(columns, rows)
    {
      var (concept, entries) := groups[i];
      var j := 0;
      while j < |entries|
        invariant 0 <= j <= |entries|
        invariant rows == Rows(groups[..i]) + GroupRows(groups[i])[..j]
        invariant frame == FrameOf(columns, rows)
      {
        KeysAreColumns(groups, i, j);
        assert Clean(entries[j]);
        FrameOfShape(columns, rows);
        frame := AddRow(columns, frame, concept, entries[j]);
        FrameOfSnoc(columns, rows, (concept, entries[j]));
        assert rows + [(concept, entries[j])] == Rows(groups[..i]) + GroupRows(groups[i])[..j + 1] by {
          GroupRowsPrefix(groups[i], j);
        }
        rows := rows + [(concept, entries[j])];
        j := j + 1;
      }
      assert GroupRows(groups[i])[..j] == GroupRows(groups[i]);
      RowsSnoc(groups, i);
      i := i + 1;
    }
    assert groups[..i] == groups;
  }

  // What the flattened frame holds.

  /** The grouping only produces entries that the flattening accepts. */
  lemma GroupedClean(doc: Document)
    ensures AllClean(Grouped(doc))
  {
    var g := Grouped(doc);
    GroupedShape(doc);
    forall i, k | 0 <= i < |g| && 0 <= k < |g[i].1| ensures Clean(g[i].1[k]) {
      var e := g[i].1[k];
      MembersElements(doc, g[i].0, e);
      var n :| 0 <= n < |doc| && Get(doc[n].1, "concept") == Some(g[i].0) && e == Entry(doc[n].0, doc[n].1);
      EntryShape(doc[n].0, doc[n].1);
    }
  }

  /** There is one row per entry. */
  lemma {:induction false} RowsCount(groups: Groups)
    ensures |Rows(groups)| == Total(groups)
  {
    if groups != [] {
      RowsCount(groups[..|groups| - 1]);
    }
  }

  /** The rows list the entries group by group: entry `k` of group `i` is the row after all
      entries of the earlier groups, and carries its group's concept. */
  lemma RowsAt(groups: Groups, i: nat, k: nat)
    requires i < |groups| && k < |groups[i].1|
    ensures Total(groups[..i]) + k < |Rows(groups)|
    ensures Rows(groups)[Total(groups[..i]) + k] == (groups[i].0, groups[i].1[k])
  {
    var before, after := groups[..i], groups[i + 1..];
    assert groups == (before + [groups[i]]) + after;
    RowsAppend(before + [groups[i]], after);
    RowsAppend(before, [groups[i]]);
    assert [groups[i]][..0] == [];
    RowsCount(before);
  }

  /** The columns are `concept` followed by the attribute keys without repeats, in the
      order in which the rows first show them. */
  lemma ColumnsShape(groups: Groups)
    ensures |Columns(groups)| >= 1 && Columns(groups)[0] == "concept"
    ensures NoDuplicates(Columns(groups))
    ensures forall c :: c in Columns(groups) <==> c == "concept" || c in RowKeys(Rows(groups))
    ensures var all := ["concept"] + RowKeys(Rows(groups)); var cs := Columns(groups);
      forall i, j :: 0 <= i < j < |cs| ==> FirstIndex(all, cs[i]) < FirstIndex(all, cs[j])
  {
    var all := ["concept"] + RowKeys(Rows(groups));
    DedupNoDuplicates(all);
    DedupElements(all);
    DedupFirstSeen(all);
    DedupHead("concept", RowKeys(Rows(groups)));
  }

  /** pull_concepts_and_variables(as_dataframe=True) over a variables document: one row per
      variable that has a concept, every column as long as the number of rows, the
      concept of a row in `concept`, and the other cells from the row's entry, None where
      the entry lacks that attribute. */
  lemma FrameOfDocument(doc: Document, c: string)
    requires c in Columns(Grouped(doc))
    ensures var rows := Rows(Grouped(doc)); var col := FrameOf(Columns(Grouped(doc)), rows)[c];
      && |col| == |rows| == |Seen(doc)|
      && forall i :: 0 <= i < |rows| ==>
           col[i] == if c == "concept" then Some(rows[i].0) else Get(rows[i].1, c)
  {
    RowsCount(Grouped(doc));
    GroupedCount(doc);
  }
}
