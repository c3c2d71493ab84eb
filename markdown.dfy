/** The Markdown report of a result set (markdown.py): a table with one row per
    item, sorted by the item's tag. */
module Markdown {
  import opened Wrappers
  import opened Strings
  import opened PidState

  const Header: string := "| Tag | Type | Size | Confidence | Status |"
  const Separator: string := "|-----|------|------|------------|--------|"

  /** `it.size or ''`: a missing size renders as an empty cell. */
  function SizeCell(size: Option<string>): (r: string)
  {
    match size
    case None => ""
    case Some(s) => s
  }

  /** One table row; `pct` is the `.2%` formatting of the confidence. */
  function Row(it: Item, pct: real -> string): (r: string)
  {
    "| " + it.tag + " | " + it.kind + " | " + SizeCell(it.size) + " | " + pct(it.conf) + " | " + it.status + " |"
  }

  function Rows(items: seq<Item>, pct: real -> string): (rows: seq<string>)
    ensures |rows| == |items|
    ensures forall i :: 0 <= i < |items| ==> rows[i] == Row(items[i], pct)
  {
    if |items| == 0 then [] else [Row(items[0], pct)] + Rows(items[1..], pct)
  }

  // ---------------------------------------------------------------------------
  // sorted(values, key=lambda i: i.tag): a stable sort by tag

  predicate SortedByTag(s: seq<Item>)
  {
    forall i, j :: 0 <= i < j < |s| ==> LexLe(s[i].tag, s[j].tag)
  }

  /** The items of s whose tag is t, in their order in s. */
  function WithTag(s: seq<Item>, t: string): (r: seq<Item>)
  {
    if |s| == 0 then []
    else WithTag(s[..|s| - 1], t) + (if s[|s| - 1].tag == t then [s[|s| - 1]] else [])
  }

  /** Inserts x into r after every element whose tag is not above x's. */
  function Insert(r: seq<Item>, x: Item): (r': seq<Item>)
    ensures |r'| == |r| + 1
  {
    if |r| == 0 || LexLe(r[|r| - 1].tag, x.tag) then r + [x]
    else Insert(r[..|r| - 1], x) + [r[|r| - 1]]
  }

  function SortByTag(s: seq<Item>): (r: seq<Item>)
    ensures |r| == |s|
  {
    if |s| == 0 then [] else Insert(SortByTag(s[..|s| - 1]), s[|s| - 1])
  }

  lemma {:induction false} InsertPermutes(r: seq<Item>, x: Item)
    ensures multiset(Insert(r, x)) == multiset(r) + multiset{x}
  {
    if |r| > 0 && !LexLe(r[|r| - 1].tag, x.tag) {
      InsertPermutes(r[..|r| - 1], x);
      assert r == r[..|r| - 1] + [r[|r| - 1]];
    }
  }

  lemma {:induction false} InsertSorted(r: seq<Item>, x: Item)
    requires SortedByTag(r)
    ensures SortedByTag(Insert(r, x))
  {
    if |r| == 0 {
    } else if LexLe(r[|r| - 1].tag, x.tag) {
      forall i | 0 <= i < |r| ensures LexLe(r[i].tag, x.tag) {
        if i < |r| - 1 { LexLeTransitive(r[i].tag, r[|r| - 1].tag, x.tag); }
      }
    } else {
      var init, last := r[..|r| - 1], r[|r| - 1];
      InsertSorted(init, x);
      InsertPermutes(init, x);
      LexLeTotal(last.tag, x.tag);
      var ins := Insert(init, x);
      forall i | 0 <= i < |ins| ensures LexLe(ins[i].tag, last.tag) {
        assert ins[i] in multiset(ins);
        if ins[i] != x {
          assert ins[i] in multiset(init);
          var j :| 0 <= j < |init| && init[j] == ins[i];
        }
      }
    }
  }

  lemma {:induction false} InsertWithTag(r: seq<Item>, x: Item, t: string)
    ensures WithTag(Insert(r, x), t) == WithTag(r, t) + (if x.tag == t then [x] else [])
  {
    if |r| == 0 || LexLe(r[|r| - 1].tag, x.tag) {
      assert (r + [x])[..|r|] == r;
    } else {
      var init, last := r[..|r| - 1], r[|r| - 1];
      InsertWithTag(init, x, t);
      if last.tag == x.tag { LexLeTotal(last.tag, x.tag); }
      var ins := Insert(init, x);
      assert (ins + [last])[..|ins|] == ins;
    }
  }

  /** sorted() returns a permutation of its input, in ascending tag order, and
      keeps the input order among items with equal tags (the sort is stable).
      Together these determine the result. */
  lemma {:induction false} SortByTagCorrect(s: seq<Item>)
    ensures SortedByTag(SortByTag(s))
    ensures multiset(SortByTag(s)) == multiset(s)
    ensures forall t :: WithTag(SortByTag(s), t) == WithTag(s, t)
  {
    if |s| > 0 {
      var init, last := s[..|s| - 1], s[|s| - 1];
      SortByTagCorrect(init);
      InsertSorted(SortByTag(init), last);
      InsertPermutes(SortByTag(init), last);
      assert s == init + [last];
      forall t ensures WithTag(SortByTag(s), t) == WithTag(s, t) {
        InsertWithTag(SortByTag(init), last, t);
      }
    }
  }

  // ---------------------------------------------------------------------------
  // render_md

  function RenderMd(items: ItemDict, pct: real -> string): (md: string)
    requires items.Valid()
  {
    if |items.keys| == 0 then ""
    else Join([Header + "\n" + Separator] + Rows(SortByTag(items.Values()), pct), "\n")
  }

  /** An empty result set renders as the empty string, and only it does. */
  lemma RenderEmpty(items: ItemDict, pct: real -> string)
    requires items.Valid()
    ensures RenderMd(items, pct) == "" <==> |items.keys| == 0
  {
    if |items.keys| > 0 {
      assert |RenderMd(items, pct)| >= |Header|;
    }
  }

  /** A non-empty report starts with the header line and the separator line. */
  lemma RenderHeader(items: ItemDict, pct: real -> string)
    requires items.Valid() && |items.keys| > 0
    ensures StartsWith(RenderMd(items, pct), Header + "\n" + Separator + "\n")
  {
    var rest := Rows(SortByTag(items.Values()), pct);
    var parts := [Header + "\n" + Separator] + rest;
    assert parts[1..] == rest;
    assert RenderMd(items, pct) == (Header + "\n" + Separator + "\n") + Join(rest, "\n");
  }

  predicate NoNewline(s: string)
  {
    NoChar(s, '\n')
  }

  /** No field of the item, nor its formatted confidence, contains a line break. */
  predicate SingleLine(it: Item, pct: real -> string)
  {
    NoNewline(it.tag) && NoNewline(it.kind) && NoNewline(SizeCell(it.size))
    && NoNewline(pct(it.conf)) && NoNewline(it.status)
  }

  lemma RowSingleLine(it: Item, pct: real -> string)
    requires SingleLine(it, pct)
    ensures NoNewline(Row(it, pct))
  {
  }

  /** Joining a two-line head with the rows equals joining its two lines and
      the rows. */
  lemma HeadJoin(a: string, b: string, rows: seq<string>)
    requires |rows| >= 1
    ensures Join([a + "\n" + b] + rows, "\n") == Join([a, b] + rows, "\n")
  {
    JoinCons(a + "\n" + b, rows, "\n");
    JoinCons2(a, b, rows, "\n");
    ConcatAssoc(a, b, Join(rows, "\n"), "\n");
  }

  /** Each element of a sort's result is an element of its input. */
  lemma SortedMember(vs: seq<Item>, i: nat)
    requires i < |SortByTag(vs)|
    ensures SortByTag(vs)[i] in vs
  {
    SortByTagCorrect(vs);
    assert SortByTag(vs)[i] in multiset(vs);
  }

  /** A non-empty report is the join of the header, the separator and the rows. */
  lemma RenderJoin(items: ItemDict, pct: real -> string)
    requires items.Valid() && |items.keys| > 0
    ensures RenderMd(items, pct) == Join([Header, Separator] + Rows(SortByTag(items.Values()), pct), "\n")
  {
    HeadJoin(Header, Separator, Rows(SortByTag(items.Values()), pct));
  }

  lemma HeadSingleLine()
    ensures NoNewline(Header) && NoNewline(Separator)
  {
  }

  /** Rows of single-line items are single lines. */
  lemma RowsSingleLine(items: ItemDict, pct: real -> string)
    requires items.Valid()
    requires forall k :: k in items.entries ==> SingleLine(items.entries[k], pct)
    ensures forall i :: 0 <= i < |items.keys| ==> NoNewline(Rows(SortByTag(items.Values()), pct)[i])
  {
    var vs := items.Values();
    var sorted := SortByTag(vs);
    SortByTagCorrect(vs);
    forall i | 0 <= i < |items.keys| ensures NoNewline(Rows(sorted, pct)[i]) {
      SortedMember(vs, i);
      var j :| 0 <= j < |vs| && vs[j] == sorted[i];
      RowSingleLine(sorted[i], pct);
    }
  }

  /** When no field spans lines, the report's lines are the header, the separator
      and one row per item, in ascending tag order (stable for equal tags):
      2 + |items| lines in all. */
  lemma RenderLines(items: ItemDict, pct: real -> string)
    requires items.Valid() && |items.keys| > 0
    requires forall k :: k in items.entries ==> SingleLine(items.entries[k], pct)
    ensures var sorted := SortByTag(items.Values());
      && Split(RenderMd(items, pct), '\n') == [Header, Separator] + Rows(sorted, pct)
      && |Split(RenderMd(items, pct), '\n')| == 2 + |items.keys|
      && SortedByTag(sorted)
      && multiset(sorted) == multiset(items.Values())
      && (forall t :: WithTag(sorted, t) == WithTag(items.Values(), t))
  {
    var rows := Rows(SortByTag(items.Values()), pct);
    var lines := [Header, Separator] + rows;
    SortByTagCorrect(items.Values());
    assert RenderMd(items, pct) == Join(lines, "\n") by {
      RenderJoin(items, pct);
    }
    assert Split(Join(lines, "\n"), '\n') == lines by {
      HeadSingleLine();
      RowsSingleLine(items, pct);
      forall i | 0 <= i < |lines| ensures NoChar(lines[i], '\n') {
        if i >= 2 { assert lines[i] == rows[i - 2]; }
      }
      SplitJoin(lines, '\n');
    }
  }

  /** The tag of a row starts at its third character. */
  lemma RowHasTag(it: Item, pct: real -> string)
    ensures OccursAt(Row(it, pct), it.tag, 2)
  {
    var row := Row(it, pct);
    assert row == "| " + it.tag + (" | " + it.kind + " | " + SizeCell(it.size) + " | " + pct(it.conf) + " | " + it.status + " |");
    assert row[2..2 + |it.tag|] == it.tag;
  }

  /** The cells of a row between its bars: tag, type, size (empty when None),
      formatted confidence and status, each padded by one space. */
  function Cells(it: Item, pct: real -> string): (r: seq<string>)
  {
    ["", " " + it.tag + " ", " " + it.kind + " ", " " + SizeCell(it.size) + " ",
     " " + pct(it.conf) + " ", " " + it.status + " ", ""]
  }

  /** A row is its cells joined by '|'. */
  lemma RowJoin(it: Item, pct: real -> string)
    ensures Row(it, pct) == Join(Cells(it, pct), "|")
  {
    var c := Cells(it, pct);
    Join7(c[0], c[1], c[2], c[3], c[4], c[5], c[6], "|");
    assert c == [c[0], c[1], c[2], c[3], c[4], c[5], c[6]];
  }

  /** A row is `| tag | type | size | conf | status |`: splitting it at '|' gives
      back its cells, when no field contains a '|'. */
  lemma RowCells(it: Item, pct: real -> string)
    requires NoChar(it.tag, '|') && NoChar(it.kind, '|') && NoChar(SizeCell(it.size), '|')
    requires NoChar(pct(it.conf), '|') && NoChar(it.status, '|')
    ensures Split(Row(it, pct), '|') == Cells(it, pct)
  {
    var c := Cells(it, pct);
    RowJoin(it, pct);
    assert forall i :: 0 <= i < |c| ==> NoChar(c[i], '|') by {
      forall i | 0 <= i < |c| ensures NoChar(c[i], '|') {
      }
    }
    SplitJoin(c, '|');
  }

  /** An occurrence inside an occurrence is an occurrence. */
  lemma OccursNested(s: string, row: string, tag: string, q: int, r: int)
    requires OccursAt(s, row, q) && OccursAt(row, tag, r)
    ensures OccursAt(s, tag, q + r)
  {
    forall k | 0 <= k < |tag| ensures s[q + r + k] == tag[k] {
      assert s[q..q + |row|][r + k] == row[r + k];
      assert row[r..r + |tag|][k] == row[r + k];
    }
    assert s[q + r..q + r + |tag|] == tag;
  }

  /** Every row occurs in the report. */
  lemma RowInRender(items: ItemDict, pct: real -> string, p: nat)
    requires items.Valid() && p < |items.keys|
    ensures exists q :: OccursAt(RenderMd(items, pct), Row(SortByTag(items.Values())[p], pct), q)
  {
    var sorted := SortByTag(items.Values());
    var rows := Rows(sorted, pct);
    assert p < |rows| && rows[p] == Row(sorted[p], pct);
    assert RenderMd(items, pct) == Join([Header + "\n" + Separator] + rows, "\n");
    RowInJoin(Header + "\n" + Separator, rows, "\n", p);
  }

  /** Every row of a join behind a head occurs in it. */
  lemma RowInJoin(head: string, rows: seq<string>, sep: string, p: nat)
    requires p < |rows|
    ensures exists q :: OccursAt(Join([head] + rows, sep), rows[p], q)
  {
    assert ([head] + rows)[p + 1] == rows[p];
    JoinContains([head] + rows, sep, p + 1);
  }

  /** Every stored item is among the sorted values. */
  lemma StoredIsSorted(items: ItemDict, k: string)
    requires items.Valid() && k in items.entries
    ensures exists p :: 0 <= p < |items.keys| && SortByTag(items.Values())[p] == items.entries[k]
  {
    var vs := items.Values();
    var j :| 0 <= j < |items.keys| && items.keys[j] == k;
    assert vs[j] == items.entries[k];
    SortByTagCorrect(vs);
    assert items.entries[k] in multiset(SortByTag(vs));
  }

  /** Every item's tag appears in the report. */
  lemma RenderHasTag(items: ItemDict, pct: real -> string, k: string)
    requires items.Valid() && k in items.entries
    ensures exists i :: OccursAt(RenderMd(items, pct), items.entries[k].tag, i)
  {
    var it := items.entries[k];
    StoredIsSorted(items, k);
    var p :| 0 <= p < |items.keys| && SortByTag(items.Values())[p] == it;
    RowInRender(items, pct, p);
    var q :| OccursAt(RenderMd(items, pct), Row(it, pct), q);
    RowHasTag(it, pct);
    OccursNested(RenderMd(items, pct), Row(it, pct), it.tag, q, 2);
  }
}
