/**
 * The part of Python's `csv` module the tool uses, for lines without quote
 * characters: a file is a sequence of lines (without their terminators), a
 * row is the line split at every comma, and a blank line reads as the empty
 * row.
 */
module Csv {
  import opened Text

  /** A line the reader splits plainly: no quoting and no embedded line break. */
  predicate PlainLine(line: string) {
    '"' !in line && '\n' !in line && '\r' !in line
  }

  predicate PlainFile(lines: seq<string>) {
    forall i :: 0 <= i < |lines| ==> PlainLine(lines[i])
  }

  /** The loaders' filter `row.startswith("#")`, applied to the raw line. */
  predicate IsComment(line: string) {
    StartsWith(line, "#")
  }

  /** One row of `csv.reader`. */
  function ReadRow(line: string): (row: seq<string>)
    requires PlainLine(line)
    ensures row == [] <==> line == ""
    ensures forall i :: 0 <= i < |row| ==> ',' !in row[i]
    ensures row != [] ==> Join(row, ',') == line
  {
    if line == "" then [] else JoinSplit(line, ','); Split(line, ',')
  }

  /** A field `csv.writer` writes as it is, without quoting. */
  predicate PlainField(f: string) {
    ',' !in f && PlainLine(f)
  }

  /** One row of `csv.writer`, for fields that need no quoting. */
  function WriteRow(fields: seq<string>): (r: string)
    requires |fields| >= 1
    ensures (forall i :: 0 <= i < |fields| ==> ',' !in fields[i]) ==> Split(r, ',') == fields
  {
    if forall i :: 0 <= i < |fields| ==> ',' !in fields[i] then
      SplitJoin(fields, ',');
      Join(fields, ',')
    else Join(fields, ',')
  }

  /** A written row of at least two plain fields reads back as the same fields. */
  lemma {:induction false} ReadWrittenRow(fields: seq<string>)
    requires |fields| >= 2
    requires forall i :: 0 <= i < |fields| ==> PlainField(fields[i])
    ensures PlainLine(WriteRow(fields))
    ensures ReadRow(WriteRow(fields)) == fields
  {
    JoinPlain(fields);
    var line := WriteRow(fields);
    assert line[|fields[0]|] == ',';
    SplitJoin(fields, ',');
  }

  lemma {:induction false} JoinPlain(fields: seq<string>)
    requires |fields| >= 1
    requires forall i :: 0 <= i < |fields| ==> PlainField(fields[i])
    ensures PlainLine(Join(fields, ','))
  {
    if |fields| > 1 {
      JoinPlain(fields[1..]);
      var rest := Join(fields[1..], ',');
      assert '"' !in [','] + rest && '\n' !in [','] + rest && '\r' !in [','] + rest;
    }
  }
}
