/**
 Corpus preparation: the table read from the survey file is checked for the
 three columns the recommender needs, missing cells are read as empty text,
 each row gets its combined interests-and-skills text, and rows repeating an
 earlier row's career label are dropped.
 */
module Corpus {
  import opened Dedup

  const CareerColumn := "If yes, then what is/was your first Job title in your current field of work? If not applicable, write NA."
  const SkillsColumn := "What are your skills ? (Select multiple if necessary)"
  const InterestsColumn := "What are your interests?"
  const RequiredColumns: set<string> := {CareerColumn, SkillsColumn, InterestsColumn}
  const MissingColumnsMessage := "Missing required columns in the dataset"

  /** One cell of the survey table: text, or a missing value (NaN). */
  datatype Cell = Missing | Present(text: string)

  /** A row maps column names to cells; a column the row has no entry for
      reads as missing. */
  type Row = map<string, Cell>

  /** The survey table: its (already whitespace-trimmed) column names and its
      rows in file order. */
  datatype Table = Table(columns: set<string>, rows: seq<Row>)

  /** One prepared corpus entry. `row` is the record's position in the
      original table (the frame index survives de-duplication). */
  datatype Record = Record(row: nat, interests: string, skills: string, combinedText: string, career: string)

  /** The outcome of preparation: the corpus, or the KeyError raised when a
      required column is absent. */
  datatype Prepared = Ready(records: seq<Record>) | KeyError(message: string)

  /** `fillna("")`: a missing cell becomes the empty string. */
  function FillNa(c: Cell): (text: string)
    ensures c.Missing? ==> text == ""
    ensures c.Present? ==> text == c.text
  {
    match c
    case Missing => ""
    case Present(t) => t
  }

  /** The text of `column` in `r` after missing values are filled. */
  function Field(r: Row, column: string): string {
    if column in r then FillNa(r[column]) else ""
  }

  /** The career label of every row of the table, after filling. */
  function RowCareers(t: Table): (labels: seq<string>)
    ensures |labels| == |t.rows|
  {
    seq(|t.rows|, i requires 0 <= i < |t.rows| => Field(t.rows[i], CareerColumn))
  }

  /** The career labels of a corpus, in corpus order. */
  function Careers(records: seq<Record>): (labels: seq<string>)
    ensures |labels| == |records|
  {
    seq(|records|, k requires 0 <= k < |records| => records[k].career)
  }

  /** The original row positions of a corpus, in corpus order. */
  function Rows(records: seq<Record>): (rows: seq<nat>)
    ensures |rows| == |records|
  {
    seq(|records|, k requires 0 <= k < |records| => records[k].row)
  }

  /** The record built from row `i` once missing cells are filled. Its
      combined text splits back into the interests, one space, and the
      skills. */
  function MakeRecord(i: nat, r: Row): (rec: Record)
    ensures rec.row == i && rec.career == Field(r, CareerColumn)
    ensures |rec.combinedText| == |rec.interests| + 1 + |rec.skills|
    ensures rec.combinedText[..|rec.interests|] == rec.interests == Field(r, InterestsColumn)
    ensures rec.combinedText[|rec.interests|] == ' '
    ensures rec.combinedText[|rec.interests| + 1..] == rec.skills == Field(r, SkillsColumn)
  {
    var interests := Field(r, InterestsColumn);
    var skills := Field(r, SkillsColumn);
    Record(i, interests, skills, interests + " " + skills, Field(r, CareerColumn))
  }

  /** Every row of the table as a record, in table order. */
  function FilledRecords(t: Table): (records: seq<Record>)
    ensures |records| == |t.rows|
    ensures Careers(records) == RowCareers(t)
    ensures forall i :: 0 <= i < |t.rows| ==>
              && records[i].interests == Field(t.rows[i], InterestsColumn)
              && records[i].skills == Field(t.rows[i], SkillsColumn)
              && records[i].combinedText == records[i].interests + " " + records[i].skills
    ensures Rows(records) == seq(|t.rows|, i requires 0 <= i < |t.rows| => i)
  {
    seq(|t.rows|, i requires 0 <= i < |t.rows| => MakeRecord(i, t.rows[i]))
  }

  /** `drop_duplicates(subset=[career])`: keep the first record of every
      career label, in the original order. */
  function DropDuplicateCareers(records: seq<Record>): (kept: seq<Record>)
    ensures Distinct(Careers(kept))
    ensures OrderedBy(Careers(records), Careers(kept))
    ensures forall i :: 0 <= i < |records| ==> records[i].career in Careers(kept)
    ensures forall k :: 0 <= k < |kept| ==>
              kept[k].career in Careers(records) &&
              kept[k] == records[FirstIndex(Careers(records), kept[k].career)]
  {
    var kept := Select(records, FirstOccurrences(Careers(records)));
    var labels := Careers(records);
    KeptCareers(records);
    KeptAreFirst(records);
    assert Careers(kept) == FromKeys(labels);
    assert forall i :: 0 <= i < |records| ==> records[i].career == labels[i] && labels[i] in Careers(kept);
    kept
  }

  /** The labels of the kept records are the de-duplicated labels. */
  lemma KeptCareers(records: seq<Record>)
    ensures Careers(Select(records, FirstOccurrences(Careers(records)))) == FromKeys(Careers(records))
  {
  }

  /** Each kept record is the first record carrying its label. */
  lemma KeptAreFirst(records: seq<Record>)
    ensures var kept := Select(records, FirstOccurrences(Careers(records)));
            forall k :: 0 <= k < |kept| ==>
              kept[k].career in Careers(records) &&
              kept[k] == records[FirstIndex(Careers(records), kept[k].career)]
  {
    var labels := Careers(records);
    var idx := FirstOccurrences(labels);
    var kept := Select(records, idx);
    forall k | 0 <= k < |kept|
      ensures kept[k].career in labels && kept[k] == records[FirstIndex(labels, kept[k].career)]
    {
      assert labels[idx[k]] == kept[k].career;
      FirstIsUnique(labels, FirstIndex(labels, kept[k].career), idx[k]);
    }
  }

  /** The corpus preparation of the recommender: fail exactly when a
      required column is absent; otherwise every record has its career and
      its combined text `interests + " " + skills` read from its original row,
      the labels are distinct, the kept rows are first occurrences in
      increasing row order, and every label of the table is still present. */
  function Prepare(t: Table): (p: Prepared)
    ensures p.KeyError? <==> !(RequiredColumns <= t.columns)
    ensures p.KeyError? ==> p.message == MissingColumnsMessage
    ensures p.Ready? ==>
      && Distinct(Careers(p.records))
      && Increasing(Rows(p.records))
      && (forall k :: 0 <= k < |p.records| ==>
            var rec := p.records[k];
            && IsFirst(RowCareers(t), rec.row)
            && rec.career == Field(t.rows[rec.row], CareerColumn)
            && rec.interests == Field(t.rows[rec.row], InterestsColumn)
            && rec.skills == Field(t.rows[rec.row], SkillsColumn)
            && rec.combinedText == rec.interests + " " + rec.skills)
      && (forall i :: 0 <= i < |t.rows| ==> RowCareers(t)[i] in Careers(p.records))
  {
    if !(RequiredColumns <= t.columns) then
      KeyError(MissingColumnsMessage)
    else
      Ready(DropDuplicateCareers(FilledRecords(t)))
  }
}
