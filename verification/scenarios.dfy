/**
 Worked examples of the prepared corpus and of recommendation assembly.
 */
module Scenarios {
  import opened Text
  import opened Dedup
  import opened Corpus
  import opened Recommend
  import opened Interface

  /** The sentinel is dropped in any letter case, a blank label is dropped,
      a repeated label is reported once at its first position, and a
      sentinel with surrounding whitespace is not recognised. */
  lemma AssembleExample()
    ensures Assemble(["na", "", " NA", "Data Analyst", " NA"]) == [" NA", "Data Analyst"]
  {
    FilterExample();
    DedupExample();
  }

  /** De-duplication keeps the first of the two spaced sentinels. */
  lemma DedupExample()
    ensures FromKeys([" NA", "Data Analyst", " NA"]) == [" NA", "Data Analyst"]
  {
    var kept := [" NA", "Data Analyst", " NA"];
    var r := [" NA", "Data Analyst"];
    assert OrderedBy(kept, r) by {
      assert FirstIndex(kept, " NA") == 0;
      assert FirstIndex(kept, "Data Analyst") == 1;
    }
    assert forall x :: x in r <==> x in kept;
    FromKeysCharacterised(kept, r);
  }

  /** The filter drops the lower-case sentinel and the empty label and keeps
      the others, repeats included. */
  lemma FilterExample()
    ensures KeepLabels(["na", "", " NA", "Data Analyst", " NA"]) == [" NA", "Data Analyst", " NA"]
  {
    var s5, s4 := ["na", "", " NA", "Data Analyst", " NA"], ["", " NA", "Data Analyst", " NA"];
    FilterExampleKeptTail();
    assert !Keep("na") by { SentinelSpellings("na"); }
    assert !Keep("") by { assert IsBlank(""); }
    KeepLabelsStep(s5);
    assert s5[1..] == s4;
    KeepLabelsStep(s4);
  }

  /** The last three labels of the example all pass the filter. */
  lemma FilterExampleKeptTail()
    ensures KeepLabels([" NA", "Data Analyst", " NA"]) == [" NA", "Data Analyst", " NA"]
  {
    var s3, s2, s1 := [" NA", "Data Analyst", " NA"], ["Data Analyst", " NA"], [" NA"];
    assert s3[1..] == s2 && s2[1..] == s1 && s1[1..] == [];
    KeepSpacedSentinel();
    KeepJobTitle();
    KeepLabelsStep(s1);
    KeepLabelsStep(s2);
    KeepLabelsStep(s3);
  }

  /** The sentinel preceded by a space passes the filter. */
  lemma KeepSpacedSentinel()
    ensures Keep(" NA")
  {
    SentinelSpellings(" NA");
    assert !IsSpace(" NA"[1]);
  }

  /** An ordinary job title passes the filter. */
  lemma KeepJobTitle()
    ensures Keep("Data Analyst")
  {
    SentinelSpellings("Data Analyst");
    assert !IsSpace("Data Analyst"[0]);
  }

  /** "Data" has no whitespace at either end, so it strips to itself. */
  lemma DataIsStripped()
    ensures Strip("Data") == "Data"
  {
    assert !IsSpace('D') && !IsSpace('a');
    StripOfStripped("Data");
  }

  /** "Python" has no whitespace at either end, so it strips to itself. */
  lemma PythonIsStripped()
    ensures Strip("Python") == "Python"
  {
    assert !IsSpace('P') && !IsSpace('n');
    StripOfStripped("Python");
  }

  /** Picking "Data" and "Python" in the GUI queries "Data Python". */
  lemma ComposeExample()
    ensures ComposeInput("Data", "Python") == "Data Python"
  {
    DataIsStripped();
    PythonIsStripped();
    ComposeStripped("Data", "Python");
    assert "Data" + " " + "Python" == "Data Python";
  }

  /** Three rows labelled Engineer, Engineer, Designer (whatever their other
      cells hold) prepare into two records: the first Engineer row and the
      Designer row. */
  lemma PrepareExample(t: Table)
    requires RequiredColumns <= t.columns
    requires RowCareers(t) == ["Engineer", "Engineer", "Designer"]
    ensures Prepare(t).Ready?
    ensures Rows(Prepare(t).records) == [0, 2]
  {
    var records := Prepare(t).records;
    KeptRowsExample(RowCareers(t), Careers(records), Rows(records));
  }

  /** What the contract of `Prepare` leaves for the labels Engineer, Engineer,
      Designer: distinct kept labels covering both, kept rows increasing and
      each a first occurrence, which only rows 0 and 2 satisfy. */
  lemma KeptRowsExample(labels: seq<string>, careers: seq<string>, rows: seq<nat>)
    requires labels == ["Engineer", "Engineer", "Designer"]
    requires Distinct(careers) && Increasing(rows) && |careers| == |rows|
    requires forall k :: 0 <= k < |rows| ==> IsFirst(labels, rows[k])
    requires forall i :: 0 <= i < |labels| ==> labels[i] in careers
    ensures rows == [0, 2]
  {
    assert forall k :: 0 <= k < |rows| ==> rows[k] == 0 || rows[k] == 2 by {
      forall k | 0 <= k < |rows| ensures rows[k] == 0 || rows[k] == 2 {
        assert IsFirst(labels, rows[k]);
        assert labels[0] == labels[1];
      }
    }
    assert |rows| >= 2 by {
      assert labels[0] in careers && labels[2] in careers;
      var a :| 0 <= a < |careers| && careers[a] == labels[0];
      var b :| 0 <= b < |careers| && careers[b] == labels[2];
      assert labels[0][0] != labels[2][0];
      assert a != b;
    }
    assert rows[0] == 0 && rows[1] == 2 by {
      assert rows[0] < rows[1];
    }
    var last := |rows| - 1;
    var second, final := rows[1], rows[last];
    assert last > 1 ==> second < final;
    assert final == 0 || final == 2;
  }

  /** The first occurrences of Engineer, Engineer, Designer are at 0 and 2. */
  lemma FirstOccurrencesExample()
    ensures FirstOccurrences(["Engineer", "Engineer", "Designer"]) == [0, 2]
  {
    var labels := ["Engineer", "Engineer", "Designer"];
    assert labels[..0] == [];
    assert FirstOccurrences(labels[..1]) == [0] by { assert labels[..1][..0] == []; }
    assert FirstOccurrences(labels[..2]) == [0] by { assert labels[..2][..1] == labels[..1]; }
    assert labels[..3] == labels;
    assert labels[..3][..2] == labels[..2];
  }
}
