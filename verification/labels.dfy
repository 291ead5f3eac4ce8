/** Label resolution: from a class name typed by the user to the ids of the
    label-index table (`class_labels_indices.csv`) whose display names match
    it. The table is passed in already parsed, one entry per data row, in file
    order. */
module LabelIndex {
  import opened Seqs
  import opened Text
  import opened Outcome

  /** One row of the label-index table: ordinal, label id (e.g. "/m/09x0r"),
      display name (e.g. "Speech"). All three are CSV text. */
  datatype LabelEntry = LabelEntry(index: string, id: string, displayName: string)

  /** The id column of the table, in table order. */
  function IdsOf(table: seq<LabelEntry>): (ids: seq<string>)
    ensures |ids| == |table|
    ensures forall i :: 0 <= i < |table| ==> ids[i] == table[i].id
  {
    seq(|table|, i requires 0 <= i < |table| => table[i].id)
  }

  /** The row filter of `get_label_id`: in strict mode the class name equals
      the display name ignoring case; otherwise the folded class name is a
      substring of the folded display name. So a match is never longer than
      the display name, and the empty class name matches every entry when not
      strict. */
  function Matches(className: string, entry: LabelEntry, strict: bool): (b: bool)
    ensures strict && b ==> |className| == |entry.displayName|
    ensures !strict && b ==> |className| <= |entry.displayName|
    ensures !strict && className == [] ==> b
  {
    ContainsNotLonger(Lower(entry.displayName), Lower(className));
    ContainsEmpty(Lower(entry.displayName));
    if strict then Lower(className) == Lower(entry.displayName)
    else Contains(Lower(entry.displayName), Lower(className))
  }

  /** `get_label_id(class_name, strict)`: the ids of every matching entry, in
      table order, one per matching entry. */
  function GetLabelId(className: string, table: seq<LabelEntry>, strict: bool): (ids: seq<string>)
    ensures forall x :: x in ids <==>
              exists i :: 0 <= i < |table| && table[i].id == x && Matches(className, table[i], strict)
    ensures IsSubseq(ids, IdsOf(table))
    decreases |table|
  {
    if |table| == 0 then []
    else
      var rest := GetLabelId(className, table[1..], strict);
      assert IdsOf(table) == [table[0].id] + IdsOf(table[1..]);
      assert forall i :: 0 <= i < |table[1..]| ==> table[1..][i] == table[i + 1];
      if Matches(className, table[0], strict) then
        SubseqConsBoth(table[0].id, rest, IdsOf(table[1..]));
        [table[0].id] + rest
      else
        SubseqCons(table[0].id, rest, IdsOf(table[1..]));
        rest
  }

  /** Equality implies containment, so the strict result is the non-strict
      result with some ids deleted, the rest kept in order. */
  lemma {:induction false} StrictWithinLoose(className: string, table: seq<LabelEntry>)
    ensures IsSubseq(GetLabelId(className, table, true), GetLabelId(className, table, false))
    decreases |table|
  {
    if |table| > 0 {
      StrictWithinLoose(className, table[1..]);
      var s := GetLabelId(className, table[1..], true);
      var l := GetLabelId(className, table[1..], false);
      if Matches(className, table[0], true) {
        ContainsSelf(Lower(table[0].displayName));
        assert Matches(className, table[0], false);
        SubseqConsBoth(table[0].id, s, l);
      } else if Matches(className, table[0], false) {
        SubseqCons(table[0].id, s, l);
      }
    }
  }

  /** A table whose ids are distinct yields distinct ids in either mode. */
  lemma ResolvedIdsDistinct(className: string, table: seq<LabelEntry>, strict: bool)
    requires NoDup(IdsOf(table))
    ensures NoDup(GetLabelId(className, table, strict))
  {
    SubseqNoDup(GetLabelId(className, table, strict), IdsOf(table));
  }

  /** Resolution ignores the case of the class name. */
  lemma {:induction false} CaseInsensitive(className: string, table: seq<LabelEntry>, strict: bool)
    ensures GetLabelId(Lower(className), table, strict) == GetLabelId(className, table, strict)
    decreases |table|
  {
    LowerIdempotent(className);
    if |table| > 0 {
      CaseInsensitive(className, table[1..], strict);
    }
  }

  /** The empty class name is a substring of every display name, so
      non-strict resolution returns the whole id column. */
  lemma {:induction false} EmptyNameMatchesAll(table: seq<LabelEntry>)
    ensures GetLabelId("", table, false) == IdsOf(table)
    decreases |table|
  {
    if |table| > 0 {
      ContainsEmpty(Lower(table[0].displayName));
      assert Lower("") == "";
      assert Matches("", table[0], false);
      EmptyNameMatchesAll(table[1..]);
      assert IdsOf(table) == [table[0].id] + IdsOf(table[1..]);
    }
  }

  /** Two entries of the reference table. */
  function SpeechTable(): seq<LabelEntry>
  {
    [LabelEntry("0", "/m/09x0r", "Speech"),
     LabelEntry("1", "/m/02zsn", "Female speech, woman speaking")]
  }

  /** The folded display names of the two entries. */
  lemma LowerSpeech()
    ensures Lower("Speech") == "speech"
  {
  }

  lemma LowerFemaleSpeech()
    ensures Lower("Female speech, woman speaking") == "female speech, woman speaking"
  {
  }

  /** "female speech" does not match "Speech" in either mode. */
  lemma FemaleSpeechVersusSpeech(strict: bool)
    ensures !Matches("female speech", SpeechTable()[0], strict)
  {
    assert Lower("female speech") == "female speech";
    LowerSpeech();
    ContainsNotLonger("speech", "female speech");
  }

  /** "female speech" is part of "Female speech, woman speaking" but not equal to it. */
  lemma FemaleSpeechVersusFemale(strict: bool)
    ensures Matches("female speech", SpeechTable()[1], strict) <==> !strict
  {
    assert Lower("female speech") == "female speech";
    LowerFemaleSpeech();
    assert "female speech, woman speaking"[..13] == "female speech";
  }

  /** "speech" matches "Speech" in both modes. */
  lemma SpeechVersusSpeech(strict: bool)
    ensures Matches("speech", SpeechTable()[0], strict)
  {
    assert Lower("speech") == "speech";
    LowerSpeech();
    ContainsSelf("speech");
  }

  /** "speech" is part of "Female speech, woman speaking" but not equal to it. */
  lemma SpeechVersusFemale(strict: bool)
    ensures Matches("speech", SpeechTable()[1], strict) <==> !strict
  {
    assert Lower("speech") == "speech";
    LowerFemaleSpeech();
    if strict {
      assert |"speech"| != |"female speech, woman speaking"|;
    } else {
      SpeechInFemaleSpeech();
    }
  }

  lemma SpeechInFemaleSpeech()
    ensures Contains("female speech, woman speaking", "speech")
  {
    ContainsInfix("female ", "speech", ", woman speaking");
    assert "female " + "speech" + ", woman speaking" == "female speech, woman speaking";
  }

  /** The documented example: "female speech" finds "Female speech, woman
      speaking", which exact matching would miss, and not "Speech". */
  lemma FemaleSpeechExample()
    ensures GetLabelId("female speech", SpeechTable(), false) == ["/m/02zsn"]
    ensures GetLabelId("female speech", SpeechTable(), true) == []
  {
    var t := SpeechTable();
    FemaleSpeechVersusSpeech(false);
    FemaleSpeechVersusSpeech(true);
    FemaleSpeechVersusFemale(false);
    FemaleSpeechVersusFemale(true);
    assert t[1..][1..] == [];
    assert GetLabelId("female speech", t[1..], false) == [t[1].id];
  }

  /** A short class name matches several entries: "speech" finds both, while
      strict "speech" finds only "Speech". */
  lemma SpeechExample()
    ensures GetLabelId("speech", SpeechTable(), false) == ["/m/09x0r", "/m/02zsn"]
    ensures GetLabelId("speech", SpeechTable(), true) == ["/m/09x0r"]
  {
    var t := SpeechTable();
    SpeechVersusSpeech(false);
    SpeechVersusSpeech(true);
    SpeechVersusFemale(false);
    SpeechVersusFemale(true);
    assert t[1..][1..] == [];
    assert GetLabelId("speech", t[1..], false) == [t[1].id];
    assert GetLabelId("speech", t[1..], true) == [];
  }

  /** `get_label_id` as written. The report of lines 102-110 runs after the
      ids are collected: `label_ids is None` never holds, more than one id is
      printed, and otherwise line 110 adds a list to a string, which raises
      TypeError. So the call only returns when at least two entries match. */
  function GetLabelIdAsWritten(className: string, table: seq<LabelEntry>, strict: bool): (res: Result<seq<string>>)
    ensures res.Ok? ==> res.value == GetLabelId(className, table, strict) && |res.value| > 1
    ensures res.Raised? ==> res.error == TypeError && |GetLabelId(className, table, strict)| <= 1
  {
    var ids := GetLabelId(className, table, strict);
    if |ids| > 1 then Ok(ids) else Raised(TypeError)
  }

  /** The documented example fails as written: "female speech" has exactly
      one match, so line 110 raises instead of returning it. */
  lemma SingleMatchCounterexample()
    ensures GetLabelIdAsWritten("female speech", SpeechTable(), false) == Raised(TypeError)
    ensures GetLabelIdAsWritten("speech", SpeechTable(), false) == Ok(["/m/09x0r", "/m/02zsn"])
  {
    FemaleSpeechExample();
    SpeechExample();
  }
}
