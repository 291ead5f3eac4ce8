/** Grouping of `get_yt_ids`: for each requested label id, the media ids of
    the rows whose label field contains it, followed by the clean-up that
    drops labels without clips. The dictionary is a sequence of groups in
    key-insertion order, which is the order Python iterates it in. */
module Grouping {
  import opened Seqs
  import opened Text
  import opened Outcome
  import opened Dataset

  /** One entry of the dictionary `yt_ids`: a label id and its media ids. */
  datatype Group = Group(key: string, mediaIds: seq<string>)

  /** The keys of the dictionary, in iteration order. */
  function Labels(groups: seq<Group>): (ls: seq<string>)
    ensures |ls| == |groups|
    ensures forall k :: 0 <= k < |groups| ==> ls[k] == groups[k].key
  {
    seq(|groups|, k requires 0 <= k < |groups| => groups[k].key)
  }

  /** The media-id column of the table, in row order. */
  function MediaIds(rows: seq<Row>): (ms: seq<string>)
    ensures |ms| == |rows|
    ensures forall i :: 0 <= i < |rows| ==> ms[i] == rows[i].mediaId
  {
    seq(|rows|, i requires 0 <= i < |rows| => rows[i].mediaId)
  }

  /** The media ids, in row order, of the rows whose label field contains
      `key`: what the list of a label should hold. */
  function MediaIdsWith(key: string, rows: seq<Row>): (ms: seq<string>)
    ensures IsSubseq(ms, MediaIds(rows))
    decreases |rows|
  {
    if |rows| == 0 then []
    else
      var rest := MediaIdsWith(key, rows[1..]);
      assert MediaIds(rows) == [rows[0].mediaId] + MediaIds(rows[1..]);
      if Contains(rows[0].labels, key) then
        SubseqConsBoth(rows[0].mediaId, rest, MediaIds(rows[1..]));
        [rows[0].mediaId] + rest
      else
        SubseqCons(rows[0].mediaId, rest, MediaIds(rows[1..]));
        rest
  }

  /** A media id is listed for `key` iff some row with that id has `key`
      in its label field. */
  lemma {:induction false} MediaIdsWithMembership(key: string, rows: seq<Row>, m: string)
    ensures m in MediaIdsWith(key, rows) <==>
              exists i :: 0 <= i < |rows| && rows[i].mediaId == m && Contains(rows[i].labels, key)
    decreases |rows|
  {
    if |rows| > 0 {
      MediaIdsWithMembership(key, rows[1..], m);
      if exists i :: 0 <= i < |rows| && rows[i].mediaId == m && Contains(rows[i].labels, key) {
        var i :| 0 <= i < |rows| && rows[i].mediaId == m && Contains(rows[i].labels, key);
        if i > 0 {
          assert rows[1..][i - 1] == rows[i];
        }
      }
      if exists i :: 0 <= i < |rows[1..]| && rows[1..][i].mediaId == m && Contains(rows[1..][i].labels, key) {
        var i :| 0 <= i < |rows[1..]| && rows[1..][i].mediaId == m && Contains(rows[1..][i].labels, key);
        assert rows[i + 1] == rows[1..][i];
      }
    }
  }

  /** Line 130 seen from the list of one key: every row whose label field
      contains the key appends its media id, once per occurrence of the key
      in `label_ids` (`times`). */
  function Collect(key: string, times: nat, rows: seq<Row>): (ms: seq<string>)
    ensures times == 0 ==> ms == []
    decreases |rows|
  {
    if |rows| == 0 then []
    else
      (if Contains(rows[0].labels, key) then Repeat(rows[0].mediaId, times) else [])
      + Collect(key, times, rows[1..])
  }

  /** A key requested once collects exactly the media ids of the rows that
      contain it, in row order. */
  lemma {:induction false} CollectOnce(key: string, rows: seq<Row>)
    ensures Collect(key, 1, rows) == MediaIdsWith(key, rows)
    decreases |rows|
  {
    if |rows| > 0 {
      CollectOnce(key, rows[1..]);
      assert Repeat(rows[0].mediaId, 1) == [rows[0].mediaId];
    }
  }

  /** A key requested `times` times collects each such media id `times` times. */
  lemma {:induction false} CollectMultiplicity(key: string, times: nat, rows: seq<Row>, m: string)
    ensures multiset(Collect(key, times, rows))[m] == times * multiset(MediaIdsWith(key, rows))[m]
    decreases |rows|
  {
    if |rows| > 0 {
      CollectMultiplicity(key, times, rows[1..], m);
      var head := if Contains(rows[0].labels, key) then Repeat(rows[0].mediaId, times) else [];
      var rest := Collect(key, times, rows[1..]);
      assert Collect(key, times, rows) == head + rest;
      CountAppend(head, rest, m);
      var k := multiset(MediaIdsWith(key, rows[1..]))[m];
      assert multiset(rest)[m] == times * k;
      if Contains(rows[0].labels, key) {
        RepeatCount(rows[0].mediaId, times, m);
        var one := if rows[0].mediaId == m then 1 else 0;
        assert multiset(head)[m] == times * one;
        assert MediaIdsWith(key, rows) == [rows[0].mediaId] + MediaIdsWith(key, rows[1..]);
        CountAppend([rows[0].mediaId], MediaIdsWith(key, rows[1..]), m);
        assert multiset(MediaIdsWith(key, rows))[m] == one + k;
        MulDistrib(times, one, k);
        assert multiset(Collect(key, times, rows))[m] == times * (one + k);
      } else {
        assert head == [];
        assert MediaIdsWith(key, rows) == MediaIdsWith(key, rows[1..]);
        assert multiset(Collect(key, times, rows))[m] == times * k;
      }
    }
  }

  /** A media id is collected for `key` iff the key is requested and some
      row with that id contains it. */
  lemma {:induction false} CollectMembership(key: string, times: nat, rows: seq<Row>, m: string)
    ensures m in Collect(key, times, rows) <==>
              times > 0 && exists i :: 0 <= i < |rows| && rows[i].mediaId == m && Contains(rows[i].labels, key)
    decreases |rows|
  {
    if |rows| > 0 {
      CollectMembership(key, times, rows[1..], m);
      InRepeat(rows[0].mediaId, times, m);
      if exists i :: 0 <= i < |rows| && rows[i].mediaId == m && Contains(rows[i].labels, key) {
        var i :| 0 <= i < |rows| && rows[i].mediaId == m && Contains(rows[i].labels, key);
        if i > 0 {
          assert rows[1..][i - 1] == rows[i];
        }
      }
      if exists i :: 0 <= i < |rows[1..]| && rows[1..][i].mediaId == m && Contains(rows[1..][i].labels, key) {
        var i :| 0 <= i < |rows[1..]| && rows[1..][i].mediaId == m && Contains(rows[1..][i].labels, key);
        assert rows[i + 1] == rows[1..][i];
      }
    }
  }

  /** The dictionary after line 130. Its keys are the requested ids, each
      once, in the order of their first occurrence in `label_ids` (line 124).
      Each key's list holds every media id of a row containing the key, as
      many times as the key is requested. */
  function CollectAll(labelIds: seq<string>, rows: seq<Row>): (groups: seq<Group>)
    ensures NoDup(Labels(groups))
    ensures forall x :: x in Labels(groups) <==> x in labelIds
    ensures FirstOccurrenceOrder(Labels(groups), labelIds)
    ensures forall k, m :: 0 <= k < |groups| ==>
              multiset(groups[k].mediaIds)[m]
              == multiset(labelIds)[groups[k].key] * multiset(MediaIdsWith(groups[k].key, rows))[m]
  {
    var keys := Dedup(labelIds);
    DedupOrder(labelIds);
    CollectCounts(keys, labelIds, rows);
    var groups := seq(|keys|, k requires 0 <= k < |keys| => Group(keys[k], Collect(keys[k], multiset(labelIds)[keys[k]], rows)));
    assert Labels(groups) == keys;
    groups
  }

  /** `CollectMultiplicity` for every key of `keys` and every media id. */
  lemma CollectCounts(keys: seq<string>, labelIds: seq<string>, rows: seq<Row>)
    ensures forall k, m :: 0 <= k < |keys| ==>
              multiset(Collect(keys[k], multiset(labelIds)[keys[k]], rows))[m]
              == multiset(labelIds)[keys[k]] * multiset(MediaIdsWith(keys[k], rows))[m]
  {
    forall k, m | 0 <= k < |keys|
      ensures multiset(Collect(keys[k], multiset(labelIds)[keys[k]], rows))[m]
              == multiset(labelIds)[keys[k]] * multiset(MediaIdsWith(keys[k], rows))[m]
    {
      CollectMultiplicity(keys[k], multiset(labelIds)[keys[k]], rows, m);
    }
  }

  /** How `CollectAll` is built: the de-duplicated ids, each with its `Collect` list. */
  lemma CollectAllShape(labelIds: seq<string>, rows: seq<Row>)
    ensures Labels(CollectAll(labelIds, rows)) == Dedup(labelIds)
    ensures forall k :: 0 <= k < |CollectAll(labelIds, rows)| ==>
              CollectAll(labelIds, rows)[k].mediaIds
              == Collect(CollectAll(labelIds, rows)[k].key, multiset(labelIds)[CollectAll(labelIds, rows)[k].key], rows)
  {
    assert Labels(CollectAll(labelIds, rows)) == Dedup(labelIds);
  }

  /** The keys of a non-empty dictionary: the first key, then the others. */
  lemma LabelsFirst(groups: seq<Group>)
    requires |groups| > 0
    ensures Labels(groups) == [groups[0].key] + Labels(groups[1..])
  {
  }

  /** The evidently intended clean-up of lines 132-135: drop the labels whose
      list is empty, keep the others in order. */
  function DropEmpty(groups: seq<Group>): (kept: seq<Group>)
    ensures forall k :: 0 <= k < |kept| ==> kept[k].mediaIds != []
    ensures IsSubseq(kept, groups)
    decreases |groups|
  {
    if |groups| == 0 then []
    else
      var rest := DropEmpty(groups[1..]);
      if groups[0].mediaIds == [] then
        SubseqCons(groups[0], rest, groups[1..]);
        rest
      else
        SubseqConsBoth(groups[0], rest, groups[1..]);
        [groups[0]] + rest
  }

  /** The keys that survive the clean-up keep their order. */
  lemma {:induction false} DropEmptyLabels(groups: seq<Group>)
    ensures IsSubseq(Labels(DropEmpty(groups)), Labels(groups))
    decreases |groups|
  {
    if |groups| > 0 {
      DropEmptyLabels(groups[1..]);
      var rest := DropEmpty(groups[1..]);
      LabelsFirst(groups);
      if groups[0].mediaIds == [] {
        SubseqCons(groups[0].key, Labels(rest), Labels(groups[1..]));
      } else {
        LabelsFirst([groups[0]] + rest);
        assert ([groups[0]] + rest)[1..] == rest;
        SubseqConsBoth(groups[0].key, Labels(rest), Labels(groups[1..]));
      }
    }
  }

  /** A group survives the clean-up iff its list is non-empty. */
  lemma {:induction false} DropEmptyMembership(groups: seq<Group>, g: Group)
    ensures g in DropEmpty(groups) <==> g in groups && g.mediaIds != []
    decreases |groups|
  {
    if |groups| > 0 {
      DropEmptyMembership(groups[1..], g);
      assert g in groups <==> g == groups[0] || g in groups[1..] by {
        assert groups == [groups[0]] + groups[1..];
      }
    }
  }

  /** The clean-up changes the dictionary iff some list is empty. */
  lemma {:induction false} DropEmptyIdentity(groups: seq<Group>)
    ensures DropEmpty(groups) == groups <==> forall k :: 0 <= k < |groups| ==> groups[k].mediaIds != []
    decreases |groups|
  {
    if |groups| > 0 {
      DropEmptyIdentity(groups[1..]);
      assert forall k :: 0 <= k < |groups[1..]| ==> groups[1..][k] == groups[k + 1];
      if groups[0].mediaIds == [] {
        SubseqMembers(DropEmpty(groups[1..]), groups[1..]);
      } else {
        assert groups == [groups[0]] + groups[1..];
      }
    }
  }

  /** `get_yt_ids(label_ids, csv_dataset)` with the clean-up as evidently
      intended. No label keeps an empty list, every key is a requested id,
      and no key occurs twice. */
  function GetYtIds(labelIds: seq<string>, rows: seq<Row>): (groups: seq<Group>)
    ensures forall k :: 0 <= k < |groups| ==> groups[k].mediaIds != []
    ensures forall k :: 0 <= k < |groups| ==> groups[k].key in labelIds
    ensures NoDup(Labels(groups))
  {
    var all := CollectAll(labelIds, rows);
    var kept := DropEmpty(all);
    DropEmptyLabels(all);
    SubseqNoDup(Labels(kept), Labels(all));
    SubseqMembers(Labels(kept), Labels(all));
    assert forall k :: 0 <= k < |kept| ==> Labels(kept)[k] in Labels(kept);
    kept
  }

  /** A kept group is a requested key with its collected list. */
  lemma KeptGroup(labelIds: seq<string>, rows: seq<Row>, g: Group)
    requires g in GetYtIds(labelIds, rows)
    ensures g.key in labelIds
    ensures g.mediaIds == Collect(g.key, multiset(labelIds)[g.key], rows)
  {
    var all := CollectAll(labelIds, rows);
    CollectAllShape(labelIds, rows);
    DropEmptyMembership(all, g);
    var k :| 0 <= k < |all| && all[k] == g;
    assert Labels(all)[k] == g.key;
  }

  /** The list kept for a key holds exactly the media ids of the rows
      that contain it. */
  lemma GetYtIdsMembers(labelIds: seq<string>, rows: seq<Row>, g: Group, m: string)
    requires g in GetYtIds(labelIds, rows)
    ensures m in g.mediaIds <==>
              exists i :: 0 <= i < |rows| && rows[i].mediaId == m && Contains(rows[i].labels, g.key)
  {
    KeptGroup(labelIds, rows, g);
    CollectMembership(g.key, multiset(labelIds)[g.key], rows, m);
  }

  /** For a key requested once, the kept list is exactly the media ids of
      the rows that contain it, in row order. */
  lemma GetYtIdsOnce(labelIds: seq<string>, rows: seq<Row>, g: Group)
    requires g in GetYtIds(labelIds, rows)
    ensures multiset(labelIds)[g.key] == 1 ==> g.mediaIds == MediaIdsWith(g.key, rows)
  {
    KeptGroup(labelIds, rows, g);
    CollectOnce(g.key, rows);
  }

  /** When the requested ids are distinct, every kept list is exactly the
      media ids of the rows containing its label, in row order. */
  lemma GetYtIdsDistinct(labelIds: seq<string>, rows: seq<Row>, g: Group)
    requires NoDup(labelIds)
    requires g in GetYtIds(labelIds, rows)
    ensures g.mediaIds == MediaIdsWith(g.key, rows)
  {
    var groups := GetYtIds(labelIds, rows);
    var k :| 0 <= k < |groups| && groups[k] == g;
    assert g.key in labelIds;
    NoDupCount(labelIds, g.key);
    GetYtIdsOnce(labelIds, rows, g);
  }

  /** A row contributes its media id to every requested label its field
      contains, so that label is kept; `GetYtIdsDrops` gives the converse. */
  lemma GetYtIdsKeeps(labelIds: seq<string>, rows: seq<Row>, key: string, i: int)
    requires key in labelIds
    requires 0 <= i < |rows| && Contains(rows[i].labels, key)
    ensures exists g :: g in GetYtIds(labelIds, rows) && g.key == key && rows[i].mediaId in g.mediaIds
  {
    var all := CollectAll(labelIds, rows);
    CollectAllShape(labelIds, rows);
    var keys := Dedup(labelIds);
    assert key in keys;
    var k :| 0 <= k < |keys| && keys[k] == key;
    assert Labels(all)[k] == key;
    var g := all[k];
    var m := rows[i].mediaId;
    var times := multiset(labelIds)[key];
    CollectMembership(key, times, rows, m);
    assert m in g.mediaIds;
    DropEmptyMembership(all, g);
    assert g in GetYtIds(labelIds, rows);
  }

  /** A requested label that no row contains is dropped. */
  lemma GetYtIdsDrops(labelIds: seq<string>, rows: seq<Row>, key: string)
    requires forall i :: 0 <= i < |rows| ==> !Contains(rows[i].labels, key)
    ensures forall g :: g in GetYtIds(labelIds, rows) ==> g.key != key
  {
    forall g | g in GetYtIds(labelIds, rows) ensures g.key != key {
      if g.mediaIds != [] {
        GetYtIdsMembers(labelIds, rows, g, g.mediaIds[0]);
      }
    }
  }

  /** The clean-up of lines 132-138 as written. A label with an empty list is
      popped at line 135 and then read again at line 138, which raises
      KeyError; if no list is empty nothing is removed. */
  function CleanupAsWritten(groups: seq<Group>): (res: Result<seq<Group>>)
    ensures res.Ok? <==> DropEmpty(groups) == groups
    ensures res.Ok? ==> res.value == groups
    ensures res.Raised? ==> res.error == KeyError
  {
    DropEmptyIdentity(groups);
    if exists k :: 0 <= k < |groups| && groups[k].mediaIds == [] then Raised(KeyError)
    else Ok(groups)
  }

  /** Some row's label field contains `key`. */
  predicate Held(key: string, rows: seq<Row>)
  {
    exists i :: 0 <= i < |rows| && Contains(rows[i].labels, key)
  }

  /** A key of the collected dictionary has an empty list iff no row holds it. */
  lemma CollectAllEmptyGroup(labelIds: seq<string>, rows: seq<Row>, k: int)
    requires 0 <= k < |CollectAll(labelIds, rows)|
    ensures CollectAll(labelIds, rows)[k].mediaIds == [] <==> !Held(CollectAll(labelIds, rows)[k].key, rows)
  {
    var all := CollectAll(labelIds, rows);
    CollectAllShape(labelIds, rows);
    var key := all[k].key;
    var times := multiset(labelIds)[key];
    assert key in Labels(all);
    assert times > 0;
    if all[k].mediaIds != [] {
      CollectMembership(key, times, rows, all[k].mediaIds[0]);
    }
    if Held(key, rows) {
      var i :| 0 <= i < |rows| && Contains(rows[i].labels, key);
      CollectMembership(key, times, rows, rows[i].mediaId);
    }
  }

  /** The collected dictionary has an empty list iff some requested label is
      held by no row. */
  lemma CollectAllHasEmpty(labelIds: seq<string>, rows: seq<Row>)
    ensures (exists k :: 0 <= k < |CollectAll(labelIds, rows)| && CollectAll(labelIds, rows)[k].mediaIds == [])
            <==> exists key :: key in labelIds && !Held(key, rows)
  {
    var all := CollectAll(labelIds, rows);
    if exists k :: 0 <= k < |all| && all[k].mediaIds == [] {
      var k :| 0 <= k < |all| && all[k].mediaIds == [];
      CollectAllEmptyGroup(labelIds, rows, k);
      assert Labels(all)[k] == all[k].key;
    }
    if exists key :: key in labelIds && !Held(key, rows) {
      var key :| key in labelIds && !Held(key, rows);
      assert key in Labels(all);
      var k :| 0 <= k < |all| && Labels(all)[k] == key;
      CollectAllEmptyGroup(labelIds, rows, k);
    }
  }

  /** `get_yt_ids` as written: it returns the collected dictionary unchanged
      when every requested label is held by some row, and raises KeyError at
      line 138 when one is not. */
  function GetYtIdsAsWritten(labelIds: seq<string>, rows: seq<Row>): (res: Result<seq<Group>>)
    ensures res.Raised? <==> exists key :: key in labelIds && !Held(key, rows)
    ensures res.Raised? ==> res.error == KeyError
    ensures res.Ok? ==> res.value == GetYtIds(labelIds, rows)
  {
    CollectAllHasEmpty(labelIds, rows);
    CleanupAsWritten(CollectAll(labelIds, rows))
  }

  /** The keys of the counterexample: two distinct ids, each requested once. */
  lemma CounterexampleKeys()
    ensures Dedup(["/m/09x0r", "/m/0dgw9r"]) == ["/m/09x0r", "/m/0dgw9r"]
    ensures multiset(["/m/09x0r", "/m/0dgw9r"])["/m/09x0r"] == 1
    ensures multiset(["/m/09x0r", "/m/0dgw9r"])["/m/0dgw9r"] == 1
  {
    var ids := ["/m/09x0r", "/m/0dgw9r"];
    assert ids[..1] == ["/m/09x0r"];
    assert ids[..1][..0] == [];
  }

  /** The lists of the counterexample: the one row holds only the first id. */
  lemma CounterexampleLists()
    ensures Collect("/m/09x0r", 1, [Row("abc123", "0", "10", "/m/09x0r")]) == ["abc123"]
    ensures Collect("/m/0dgw9r", 1, [Row("abc123", "0", "10", "/m/09x0r")]) == []
  {
    ContainsSelf("/m/09x0r");
    ContainsNotLonger("/m/09x0r", "/m/0dgw9r");
    assert Repeat("abc123", 1) == ["abc123"];
  }

  /** The dictionary of the counterexample before the clean-up. */
  lemma CounterexampleGroups()
    ensures CollectAll(["/m/09x0r", "/m/0dgw9r"], [Row("abc123", "0", "10", "/m/09x0r")])
            == [Group("/m/09x0r", ["abc123"]), Group("/m/0dgw9r", [])]
  {
    CounterexampleKeys();
    CounterexampleLists();
    CollectAllShape(["/m/09x0r", "/m/0dgw9r"], [Row("abc123", "0", "10", "/m/09x0r")]);
  }

  /** Requesting a label that no row holds: the intended result drops it, the
      code as written raises KeyError. */
  lemma CleanupCounterexample()
    ensures GetYtIdsAsWritten(["/m/09x0r", "/m/0dgw9r"], [Row("abc123", "0", "10", "/m/09x0r")]) == Raised(KeyError)
    ensures GetYtIds(["/m/09x0r", "/m/0dgw9r"], [Row("abc123", "0", "10", "/m/09x0r")]) == [Group("/m/09x0r", ["abc123"])]
  {
    CounterexampleGroups();
    var all := [Group("/m/09x0r", ["abc123"]), Group("/m/0dgw9r", [])];
    assert all[1..] == [Group("/m/0dgw9r", [])];
    assert all[1..][1..] == [];
    assert DropEmpty(all) == [Group("/m/09x0r", ["abc123"])];
    assert all[1].mediaIds == [];
  }
}
