/** Row selection of `create_csv`: which rows of the segment table are
    written to the per-class CSV file, and how many times each. The table is
    passed in already parsed; the file written is the returned sequence. */
module Dataset {
  import opened Seqs
  import opened Text
  import opened Outcome
  import opened LabelIndex

  /** One row of the segment table: media (YouTube) id, start and end offset
      as CSV text, and the raw label field, a comma-joined list of label ids
      that is searched by substring, never split. */
  datatype Row = Row(mediaId: string, start: string, end: string, labels: string)

  /** Some id of `ids` occurs in the raw label field. */
  predicate HasAny(ids: seq<string>, labels: string)
  {
    exists k :: 0 <= k < |ids| && Contains(labels, ids[k])
  }

  /** How many entries of `ids` occur in the raw label field: the number of
      iterations of `for label in label_id` whose `label in row[3]` holds. */
  function HitCount(ids: seq<string>, labels: string): (n: nat)
    ensures n <= |ids|
    ensures n == 0 <==> !HasAny(ids, labels)
    decreases |ids|
  {
    if |ids| == 0 then 0
    else
      assert forall k :: 0 <= k < |ids[1..]| ==> ids[1..][k] == ids[k + 1];
      (if Contains(labels, ids[0]) then 1 else 0) + HitCount(ids[1..], labels)
  }

  /** How many times `row` is written: once per wanted id in its label field,
      and not at all when a blacklisted id is in it. */
  function Copies(row: Row, wanted: seq<string>, blacklist: seq<string>): (n: nat)
    ensures n <= |wanted|
    ensures n == 0 <==> !HasAny(wanted, row.labels) || HasAny(blacklist, row.labels)
  {
    if HasAny(blacklist, row.labels) then 0 else HitCount(wanted, row.labels)
  }

  /** The comprehension of line 63 with the blacklist test as evidently
      intended: for each row, for each wanted id in its label field, the row,
      unless some blacklisted id is in its label field. */
  function SelectRows(rows: seq<Row>, wanted: seq<string>, blacklist: seq<string>): (out: seq<Row>)
    ensures wanted == [] ==> out == []
    ensures blacklist == wanted ==> out == []
    decreases |rows|
  {
    if |rows| == 0 then []
    else
      Repeat(rows[0], Copies(rows[0], wanted, blacklist)) + SelectRows(rows[1..], wanted, blacklist)
  }

  /** A row is written iff it is in the table, holds a wanted id and holds no
      blacklisted id. */
  lemma {:induction false} SelectRowsMembership(rows: seq<Row>, wanted: seq<string>, blacklist: seq<string>, r: Row)
    ensures r in SelectRows(rows, wanted, blacklist) <==>
              r in rows && HasAny(wanted, r.labels) && !HasAny(blacklist, r.labels)
    decreases |rows|
  {
    if |rows| > 0 {
      SelectRowsMembership(rows[1..], wanted, blacklist, r);
      var n := Copies(rows[0], wanted, blacklist);
      InRepeat(rows[0], n, r);
      assert r in rows <==> r == rows[0] || r in rows[1..] by {
        assert rows == [rows[0]] + rows[1..];
      }
    }
  }

  /** Every written row is a row of the table holding a wanted id. */
  lemma SelectRowsSound(rows: seq<Row>, wanted: seq<string>, blacklist: seq<string>)
    ensures forall r :: r in SelectRows(rows, wanted, blacklist) ==> r in rows && HasAny(wanted, r.labels)
  {
    forall r | r in SelectRows(rows, wanted, blacklist) ensures r in rows && HasAny(wanted, r.labels) {
      SelectRowsMembership(rows, wanted, blacklist, r);
    }
  }

  /** Selection works row by row: the rows selected from an earlier part of
      the table come before those from a later part. */
  lemma {:induction false} SelectRowsAppend(a: seq<Row>, b: seq<Row>, wanted: seq<string>, blacklist: seq<string>)
    ensures SelectRows(a + b, wanted, blacklist) == SelectRows(a, wanted, blacklist) + SelectRows(b, wanted, blacklist)
    decreases |a|
  {
    if |a| == 0 {
      assert a + b == b;
    } else {
      assert (a + b)[0] == a[0];
      assert (a + b)[1..] == a[1..] + b;
      SelectRowsAppend(a[1..], b, wanted, blacklist);
      var head := Repeat(a[0], Copies(a[0], wanted, blacklist));
      assert SelectRows(a + b, wanted, blacklist) == head + SelectRows(a[1..] + b, wanted, blacklist);
      assert head + (SelectRows(a[1..], wanted, blacklist) + SelectRows(b, wanted, blacklist))
          == (head + SelectRows(a[1..], wanted, blacklist)) + SelectRows(b, wanted, blacklist);
    }
  }

  /** Each occurrence of a row in the table is written once for every wanted
      id in its label field, and never when it is blacklisted. */
  lemma {:induction false} SelectRowsMultiplicity(rows: seq<Row>, wanted: seq<string>, blacklist: seq<string>, r: Row)
    ensures multiset(SelectRows(rows, wanted, blacklist))[r] == multiset(rows)[r] * Copies(r, wanted, blacklist)
    decreases |rows|
  {
    if |rows| > 0 {
      var c := Copies(r, wanted, blacklist);
      var n0 := Copies(rows[0], wanted, blacklist);
      var head := Repeat(rows[0], n0);
      var rest := SelectRows(rows[1..], wanted, blacklist);
      var one := if rows[0] == r then 1 else 0;
      var m := multiset(rows[1..])[r];
      SelectRowsMultiplicity(rows[1..], wanted, blacklist, r);
      assert multiset(rest)[r] == m * c;
      RepeatCount(rows[0], n0, r);
      assert multiset(head)[r] == one * c;
      assert SelectRows(rows, wanted, blacklist) == head + rest;
      CountAppend(head, rest, r);
      CountFirst(rows, r);
      assert multiset(rows)[r] == one + m;
      MulDistrib(c, one, m);
      assert (one + m) * c == one * c + m * c;
    }
  }

  /** When no row carries two wanted ids, no row is repeated and the output
      is the table with rows deleted, in table order. */
  lemma {:induction false} SelectRowsSubseq(rows: seq<Row>, wanted: seq<string>, blacklist: seq<string>)
    requires forall k :: 0 <= k < |rows| ==> HitCount(wanted, rows[k].labels) <= 1
    ensures IsSubseq(SelectRows(rows, wanted, blacklist), rows)
    decreases |rows|
  {
    if |rows| > 0 {
      assert forall k :: 0 <= k < |rows[1..]| ==> rows[1..][k] == rows[k + 1];
      SelectRowsSubseq(rows[1..], wanted, blacklist);
      var rest := SelectRows(rows[1..], wanted, blacklist);
      assert rows == [rows[0]] + rows[1..];
      var n := Copies(rows[0], wanted, blacklist);
      assert n <= 1;
      if n == 1 {
        assert Repeat(rows[0], 1) == [rows[0]];
        SubseqConsBoth(rows[0], rest, rows[1..]);
      } else {
        assert Repeat(rows[0], 0) == [];
        assert SelectRows(rows, wanted, blacklist) == rest;
        SubseqCons(rows[0], rest, rows[1..]);
      }
    }
  }

  /** When every field holding a wanted id also holds a blacklisted one,
      nothing is written. */
  lemma {:induction false} BlacklistCoversWanted(rows: seq<Row>, wanted: seq<string>, blacklist: seq<string>)
    requires forall labels: string :: HasAny(wanted, labels) ==> HasAny(blacklist, labels)
    ensures SelectRows(rows, wanted, blacklist) == []
    decreases |rows|
  {
    if |rows| > 0 {
      BlacklistCoversWanted(rows[1..], wanted, blacklist);
      assert Copies(rows[0], wanted, blacklist) == 0;
    }
  }

  /** The blacklist test of line 63 as written. `set(row[3])` is the set of
      characters of the label field and `blacklisted_ids` is a list of lists;
      `intersection` hashes each of those lists and raises TypeError. The
      test is only reached for a row that holds a wanted id, so a non-empty
      blacklist raises at the first such row, and otherwise nothing is
      excluded. */
  function SelectRowsAsWritten(rows: seq<Row>, wanted: seq<string>, blacklistedIds: seq<seq<string>>): (res: Result<seq<Row>>)
    ensures res.Ok? ==> res.value == SelectRows(rows, wanted, [])
    ensures res.Raised? ==> res.error == TypeError
    ensures res.Raised? <==> blacklistedIds != [] && exists k :: 0 <= k < |rows| && HasAny(wanted, rows[k].labels)
  {
    if |blacklistedIds| > 0 && exists k :: 0 <= k < |rows| && HasAny(wanted, rows[k].labels) then
      Raised(TypeError)
    else
      Ok(SelectRows(rows, wanted, []))
  }

  /** As written, a non-empty blacklist either raises or returns nothing at
      all: it never excludes a row and lets the others through. */
  lemma AsWrittenBlacklistNeverFilters(rows: seq<Row>, wanted: seq<string>, blacklistedIds: seq<seq<string>>)
    ensures blacklistedIds != [] && SelectRowsAsWritten(rows, wanted, blacklistedIds).Ok? ==>
              SelectRowsAsWritten(rows, wanted, blacklistedIds).value == []
  {
    var out := SelectRows(rows, wanted, []);
    if out != [] {
      SelectRowsMembership(rows, wanted, [], out[0]);
      assert out[0] in out;
      var k :| 0 <= k < |rows| && rows[k] == out[0];
    }
  }

  /** A segment whose label field holds two label ids, "/m/09x0r" and "/m/0dgw9r". */
  function SpeechRow(): Row
  {
    Row("abc123", "0", "10", "/m/09x0r,/m/0dgw9r")
  }

  /** The segment holds both of its label ids. */
  lemma SpeechRowLabels()
    ensures HasAny(["/m/09x0r"], SpeechRow().labels)
    ensures HasAny(["/m/0dgw9r"], SpeechRow().labels)
  {
    assert SpeechRow().labels == "" + "/m/09x0r" + ",/m/0dgw9r";
    ContainsInfix("", "/m/09x0r", ",/m/0dgw9r");
    assert Contains(SpeechRow().labels, ["/m/09x0r"][0]);
    assert SpeechRow().labels == "/m/09x0r," + "/m/0dgw9r" + "";
    ContainsInfix("/m/09x0r,", "/m/0dgw9r", "");
    assert Contains(SpeechRow().labels, ["/m/0dgw9r"][0]);
  }

  /** Blacklisting "/m/0dgw9r" should drop the row; as written it raises
      TypeError instead, and without a blacklist the row is kept. */
  lemma BlacklistCounterexample()
    ensures SelectRowsAsWritten([SpeechRow()], ["/m/09x0r"], [["/m/0dgw9r"]]) == Raised(TypeError)
    ensures SelectRows([SpeechRow()], ["/m/09x0r"], Flatten([["/m/0dgw9r"]])) == []
    ensures SelectRows([SpeechRow()], ["/m/09x0r"], []) == [SpeechRow()]
  {
    SpeechRowLabels();
    var rows := [SpeechRow()];
    assert HasAny(["/m/09x0r"], rows[0].labels);
    assert Flatten([["/m/0dgw9r"]]) == ["/m/0dgw9r"];
    assert HitCount(["/m/09x0r"], SpeechRow().labels) == 1;
    assert Repeat(SpeechRow(), 1) == [SpeechRow()];
  }

  /** Line 56: the ids of each blacklisted class, one list per class. */
  function ResolveAll(classes: seq<string>, table: seq<LabelEntry>, strict: bool): (idss: seq<seq<string>>)
    ensures |idss| == |classes|
    ensures forall k, x :: 0 <= k < |classes| ==>
              (x in idss[k] <==> exists i :: 0 <= i < |table| && table[i].id == x && Matches(classes[k], table[i], strict))
  {
    seq(|classes|, k requires 0 <= k < |classes| => GetLabelId(classes[k], table, strict))
  }

  /** An id of the flattened lists is in a field iff an id of one list is. */
  lemma HasAnyFlatten(idss: seq<seq<string>>, labels: string)
    ensures HasAny(Flatten(idss), labels) <==> exists k :: 0 <= k < |idss| && HasAny(idss[k], labels)
  {
    var flat := Flatten(idss);
    if HasAny(flat, labels) {
      var j :| 0 <= j < |flat| && Contains(labels, flat[j]);
      assert flat[j] in flat;
      var k :| 0 <= k < |idss| && flat[j] in idss[k];
      var i :| 0 <= i < |idss[k]| && idss[k][i] == flat[j];
      assert HasAny(idss[k], labels);
    }
    if exists k :: 0 <= k < |idss| && HasAny(idss[k], labels) {
      var k :| 0 <= k < |idss| && HasAny(idss[k], labels);
      var i :| 0 <= i < |idss[k]| && Contains(labels, idss[k][i]);
      assert idss[k][i] in flat;
      var j :| 0 <= j < |flat| && flat[j] == idss[k][i];
    }
  }

  /** A field holds an id of the flattened blacklist iff it holds an id of some blacklisted class. */
  lemma BlacklistResolved(blacklist: seq<string>, strict: bool, table: seq<LabelEntry>)
    ensures forall labels: string :: HasAny(Flatten(ResolveAll(blacklist, table, strict)), labels) <==>
              exists k :: 0 <= k < |blacklist| && HasAny(GetLabelId(blacklist[k], table, strict), labels)
  {
    var idss := ResolveAll(blacklist, table, strict);
    assert |idss| == |blacklist|;
    forall labels: string
      ensures HasAny(Flatten(idss), labels) <==>
              exists k :: 0 <= k < |blacklist| && HasAny(GetLabelId(blacklist[k], table, strict), labels)
    {
      HasAnyFlatten(idss, labels);
      if exists k :: 0 <= k < |idss| && HasAny(idss[k], labels) {
        var k :| 0 <= k < |idss| && HasAny(idss[k], labels);
        assert HasAny(GetLabelId(blacklist[k], table, strict), labels);
      }
      if exists k :: 0 <= k < |blacklist| && HasAny(GetLabelId(blacklist[k], table, strict), labels) {
        var k :| 0 <= k < |blacklist| && HasAny(GetLabelId(blacklist[k], table, strict), labels);
        assert HasAny(idss[k], labels);
      }
    }
  }

  /** `create_csv(class_name, args)` with the evidently intended blacklist.
      Only rows of the table that hold an id of the class are written. */
  function CreateCsvRows(className: string, blacklist: seq<string>, strict: bool,
                         table: seq<LabelEntry>, rows: seq<Row>): (out: seq<Row>)
    ensures forall r :: r in out ==> r in rows && HasAny(GetLabelId(className, table, strict), r.labels)
  {
    SelectRowsSound(rows, GetLabelId(className, table, strict), Flatten(ResolveAll(blacklist, table, strict)));
    SelectRows(rows, GetLabelId(className, table, strict), Flatten(ResolveAll(blacklist, table, strict)))
  }

  /** A row is written when the class resolves to an id in its label field
      and no blacklisted class resolves to an id in it. */
  lemma CreateCsvRowsMembership(className: string, blacklist: seq<string>, strict: bool,
                                table: seq<LabelEntry>, rows: seq<Row>, r: Row)
    ensures r in CreateCsvRows(className, blacklist, strict, table, rows) <==>
              && r in rows
              && HasAny(GetLabelId(className, table, strict), r.labels)
              && forall k :: 0 <= k < |blacklist| ==> !HasAny(GetLabelId(blacklist[k], table, strict), r.labels)
  {
    BlacklistResolved(blacklist, strict, table);
    SelectRowsMembership(rows, GetLabelId(className, table, strict), Flatten(ResolveAll(blacklist, table, strict)), r);
  }

  /** `create_csv` as written: the same selection, with line 63's blacklist test. */
  function CreateCsvRowsAsWritten(className: string, blacklist: seq<string>, strict: bool,
                                  table: seq<LabelEntry>, rows: seq<Row>): (res: Result<seq<Row>>)
    ensures blacklist == [] ==> res == Ok(CreateCsvRows(className, [], strict, table, rows))
    ensures blacklist != [] && res.Ok? ==> res.value == []
    ensures res.Raised? ==> res.error == TypeError
    ensures res.Raised? <==>
              blacklist != [] && exists k :: 0 <= k < |rows| && HasAny(GetLabelId(className, table, strict), rows[k].labels)
  {
    var wanted := GetLabelId(className, table, strict);
    var idss := ResolveAll(blacklist, table, strict);
    assert Flatten(ResolveAll([], table, strict)) == [];
    AsWrittenBlacklistNeverFilters(rows, wanted, idss);
    SelectRowsAsWritten(rows, wanted, idss)
  }

  /** A class that is also on its own blacklist yields no rows. */
  lemma SelfBlacklistedClassIsEmpty(className: string, blacklist: seq<string>, strict: bool,
                                    table: seq<LabelEntry>, rows: seq<Row>)
    requires className in blacklist
    ensures CreateCsvRows(className, blacklist, strict, table, rows) == []
  {
    var wanted := GetLabelId(className, table, strict);
    var k :| 0 <= k < |blacklist| && blacklist[k] == className;
    BlacklistResolved(blacklist, strict, table);
    BlacklistCoversWanted(rows, wanted, Flatten(ResolveAll(blacklist, table, strict)));
  }
}
