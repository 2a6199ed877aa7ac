/**
 * The CSV helpers of the current package: reading the user records and the
 * usernames of a file, reading one field of a record, and the rows written
 * by the export.
 */
module Utils {
  import opened Text
  import opened Models
  import opened Csv

  /** The fixed schema a creation file is read against, in column order. */
  const Fieldnames: seq<string> :=
    ["username", "name", "email", "organization", "location", "group", "access_level"]

  /** The schema names are pairwise different: their first letters already differ. */
  lemma FieldnamesDistinct()
    ensures forall i, j :: 0 <= i < 7 && 0 <= j < 7 && i != j ==> Fieldnames[i] != Fieldnames[j]
  {
    forall i, j | 0 <= i < 7 && 0 <= j < 7 && i != j ensures Fieldnames[i][0] != Fieldnames[j][0] {
    }
  }

  /** The seven schema keys. */
  const FieldKeys: set<Key> := set i | 0 <= i < |Fieldnames| :: Name(Fieldnames[i])

  /** `get_user_data`: the value under `dataname`, or a `ValueError` naming it. */
  function GetUserData(user: UserDict, dataname: string): (r: Result<Value>)
    ensures r.Success? <==> Name(dataname) in user
    ensures r.Success? ==> r.value == user[Name(dataname)]
    ensures r.Failure? ==> r.error == ValueError(dataname)
  {
    if Name(dataname) in user then Success(user[Name(dataname)])
    else Failure(ValueError(dataname))
  }

  // ---------------------------------------------------------------------
  // Export

  const ExportHeader: seq<string> := ["id", "username", "name", "email", "state"]

  /** The exported fields of one user: its id as decimal text, then username, name, email and state. */
  function ExportRow(u: User): (r: seq<string>)
    ensures |r| == 5 && r[0] != [] && ParseNat(r[0]) == u.id
    ensures forall i :: 0 <= i < |r[0]| ==> '0' <= r[0][i] <= '9'
    ensures r[1..] == [u.username, u.name, u.email, u.state]
  {
    ParseNatToString(u.id);
    [NatToString(u.id), u.username, u.name, u.email, u.state]
  }

  /** The lines `export_users_to_csv` writes: the header, then one row per user. */
  function ExportLines(users: seq<User>): (lines: seq<string>)
    ensures |lines| == |users| + 1
  {
    [WriteRow(ExportHeader)] + seq(|users|, i requires 0 <= i < |users| => WriteRow(ExportRow(users[i])))
  }

  /** A user whose exported fields need no CSV quoting. */
  predicate PlainUser(u: User) {
    PlainField(u.username) && PlainField(u.name) && PlainField(u.email) && PlainField(u.state)
  }

  /** `line` reads back as the id, username, name, email and state of `u`. */
  predicate ReadsBackAs(line: string, u: User) {
    PlainLine(line) &&
    var row := ReadRow(line);
    |row| == 5 && ParseNat(row[0]) == u.id && row[1] == u.username &&
    row[2] == u.name && row[3] == u.email && row[4] == u.state
  }

  lemma ExportRowRoundTrip(u: User)
    requires PlainUser(u)
    ensures ReadsBackAs(WriteRow(ExportRow(u)), u)
  {
    NumberIsPlain(u.id);
    ReadWrittenRow(ExportRow(u));
    ParseNatToString(u.id);
  }

  /**
   * Reading the exported file back gives the header and, in the same order,
   * one row per user holding its id, username, name, email and state.
   */
  lemma ExportRoundTrip(users: seq<User>)
    requires forall i :: 0 <= i < |users| ==> PlainUser(users[i])
    ensures PlainLine(ExportLines(users)[0]) && ReadRow(ExportLines(users)[0]) == ExportHeader
    ensures forall i :: 0 <= i < |users| ==> ReadsBackAs(ExportLines(users)[i + 1], users[i])
  {
    ExportHeaderRoundTrip();
    assert ExportLines(users)[0] == WriteRow(ExportHeader);
    forall i | 0 <= i < |users| ensures ReadsBackAs(ExportLines(users)[i + 1], users[i]) {
      ExportLineRoundTrip(users, i);
    }
  }

  lemma ExportLineRoundTrip(users: seq<User>, i: nat)
    requires i < |users| && PlainUser(users[i])
    ensures ReadsBackAs(ExportLines(users)[i + 1], users[i])
  {
    ExportRowRoundTrip(users[i]);
    assert ExportLines(users)[i + 1] == WriteRow(ExportRow(users[i]));
  }

  lemma ExportHeaderRoundTrip()
    ensures PlainLine(WriteRow(ExportHeader)) && ReadRow(WriteRow(ExportHeader)) == ExportHeader
  {
    ReadWrittenRow(ExportHeader);
  }

  lemma NumberIsPlain(n: nat)
    ensures PlainField(NatToString(n))
  {
    var s := NatToString(n);
    forall c | c in [',', '"', '\n', '\r'] ensures c !in s {
      assert !('0' <= c <= '9');
    }
  }

  // ---------------------------------------------------------------------
  // Reading user records

  /** `zip_longest(names, row)`: pairs up to the longer length, `None` filling the gaps. */
  function ZipLongest(names: seq<string>, row: seq<string>): (r: seq<(Key, Value)>)
    ensures |r| == if |names| < |row| then |row| else |names|
  {
    var n := if |names| < |row| then |row| else |names|;
    seq(n, i requires 0 <= i < n =>
      (if i < |names| then Name(names[i]) else NoneKey, if i < |row| then Str(row[i]) else Null))
  }

  /**
   * Position by position, a name pairs with the field below it; past the
   * names the key is `None`, past the fields the value is `None`.
   */
  lemma ZipLongestPairs(names: seq<string>, row: seq<string>)
    ensures forall i :: 0 <= i < |ZipLongest(names, row)| ==>
              ZipLongest(names, row)[i].0 == (if i < |names| then Name(names[i]) else NoneKey) &&
              ZipLongest(names, row)[i].1 == (if i < |row| then Str(row[i]) else Null)
  {
  }

  /** `dict(pairs)`: later pairs overwrite earlier ones with the same key. */
  function DictOf(pairs: seq<(Key, Value)>): (r: UserDict)
    ensures |r| <= |pairs|
    ensures pairs != [] ==> pairs[|pairs| - 1].0 in r && r[pairs[|pairs| - 1].0] == pairs[|pairs| - 1].1
  {
    if pairs == [] then map[]
    else DictOf(pairs[..|pairs| - 1])[pairs[|pairs| - 1].0 := pairs[|pairs| - 1].1]
  }

  lemma {:induction false} DictOfKeys(pairs: seq<(Key, Value)>)
    ensures DictOf(pairs).Keys == set i | 0 <= i < |pairs| :: pairs[i].0
  {
    if pairs != [] {
      var init := pairs[..|pairs| - 1];
      DictOfKeys(init);
      assert (set i | 0 <= i < |pairs| :: pairs[i].0) ==
             (set i | 0 <= i < |init| :: init[i].0) + {pairs[|pairs| - 1].0};
    }
  }

  /** A key's value in `dict(pairs)` is the value of its last pair. */
  lemma {:induction false} DictOfLast(pairs: seq<(Key, Value)>, i: nat)
    requires i < |pairs|
    requires forall j :: i < j < |pairs| ==> pairs[j].0 != pairs[i].0
    ensures pairs[i].0 in DictOf(pairs) && DictOf(pairs)[pairs[i].0] == pairs[i].1
  {
    if i < |pairs| - 1 {
      DictOfLast(pairs[..|pairs| - 1], i);
    }
  }

  /** `[x.strip() for x in row]` */
  function TrimAll(row: seq<string>): (r: seq<string>)
    ensures |r| == |row|
  {
    seq(|row|, i requires 0 <= i < |row| => Trim(row[i]))
  }

  /** Each field of the row is stripped in place, so an empty field stays `""`. */
  lemma TrimAllFields(row: seq<string>)
    ensures forall i :: 0 <= i < |row| ==> TrimAll(row)[i] == Trim(row[i])
  {
  }

  /** The record a row of (already trimmed) fields becomes. */
  function RowRecord(row: seq<string>): (r: UserDict)
    ensures r.Keys == if |row| <= 7 then FieldKeys else FieldKeys + {NoneKey}
  {
    ZipLongestKeys(row);
    DictOf(ZipLongest(Fieldnames, row))
  }

  /** The keys `dict(zip_longest(fieldnames, row))` ends with: the schema, and `None` for a long row. */
  lemma ZipLongestKeys(row: seq<string>)
    ensures DictOf(ZipLongest(Fieldnames, row)).Keys == if |row| <= 7 then FieldKeys else FieldKeys + {NoneKey}
  {
    var pairs := ZipLongest(Fieldnames, row);
    var keys := if |row| <= 7 then FieldKeys else FieldKeys + {NoneKey};
    DictOfKeys(pairs);
    forall k | k in keys ensures k in DictOf(pairs) {
      if k == NoneKey {
        assert pairs[7].0 == k;
      } else {
        var i :| 0 <= i < 7 && k == Name(Fieldnames[i]);
        assert pairs[i].0 == k;
      }
    }
    forall k | k in DictOf(pairs) ensures k in keys {
      var i :| 0 <= i < |pairs| && pairs[i].0 == k;
      if i < 7 {
        assert k == Name(Fieldnames[i]);
      }
    }
  }

  /**
   * A row of at most seven fields gives exactly the seven schema keys; the
   * missing trailing fields are `None`.
   */
  lemma RowRecordShort(row: seq<string>)
    requires |row| <= 7
    ensures RowRecord(row).Keys == FieldKeys
    ensures forall i :: 0 <= i < 7 ==>
              RowRecord(row)[Name(Fieldnames[i])] == if i < |row| then Str(row[i]) else Null
  {
    var pairs := ZipLongest(Fieldnames, row);
    forall i | 0 <= i < 7
      ensures RowRecord(row)[Name(Fieldnames[i])] == if i < |row| then Str(row[i]) else Null
    {
      DictOfLast(pairs, i);
    }
  }

  /**
   * A row of more than seven fields keeps the seven named fields and adds one
   * entry under `None` holding the last extra value.
   */
  lemma RowRecordLong(row: seq<string>)
    requires |row| > 7
    ensures RowRecord(row).Keys == FieldKeys + {NoneKey}
    ensures forall i :: 0 <= i < 7 ==> RowRecord(row)[Name(Fieldnames[i])] == Str(row[i])
    ensures RowRecord(row)[NoneKey] == Str(row[|row| - 1])
  {
    var pairs := ZipLongest(Fieldnames, row);
    forall i | 0 <= i < 7 ensures RowRecord(row)[Name(Fieldnames[i])] == Str(row[i]) {
      DictOfLast(pairs, i);
    }
    DictOfLast(pairs, |pairs| - 1);
  }

  /** The record one non-comment line becomes: trimmed fields zipped onto the schema. */
  function ParseUserLine(line: string): (r: UserDict)
    requires PlainLine(line)
    ensures Name("username") in r && Name("email") in r && Name("name") in r
  {
    assert Name(Fieldnames[0]) in FieldKeys && Name(Fieldnames[1]) in FieldKeys && Name(Fieldnames[2]) in FieldKeys;
    RowRecord(TrimAll(ReadRow(line)))
  }

  /**
   * Each schema column of a line's record holds the stripped field the line
   * supplies, or `None` when the line is too short to reach it.
   */
  lemma ParseUserLineFields(line: string)
    requires PlainLine(line)
    ensures forall i :: 0 <= i < 7 ==>
              ParseUserLine(line)[Name(Fieldnames[i])] ==
              if i < |ReadRow(line)| then Str(Trim(ReadRow(line)[i])) else Null
  {
    var row := TrimAll(ReadRow(line));
    TrimAllFields(ReadRow(line));
    if |row| <= 7 {
      RowRecordShort(row);
    } else {
      RowRecordLong(row);
    }
  }

  /** `get_users_from_csv`: at most one record per line. */
  function UsersFromCsv(lines: seq<string>): (r: seq<UserDict>)
    requires PlainFile(lines)
    ensures |r| <= |lines|
  {
    if lines == [] then []
    else (if IsComment(lines[0]) then [] else [ParseUserLine(lines[0])]) + UsersFromCsv(lines[1..])
  }

  /** A file without comments gives each line's record, in file order. */
  lemma {:induction false} UsersFromCsvNoComments(lines: seq<string>)
    requires PlainFile(lines)
    requires forall i :: 0 <= i < |lines| ==> !IsComment(lines[i])
    ensures |UsersFromCsv(lines)| == |lines|
    ensures forall i :: 0 <= i < |lines| ==> UsersFromCsv(lines)[i] == ParseUserLine(lines[i])
  {
    UsersFromCsvLength(lines);
    forall i | 0 <= i < |lines| ensures UsersFromCsv(lines)[i] == ParseUserLine(lines[i]) {
      UsersFromCsvAt(lines, i);
    }
  }

  lemma {:induction false} UsersFromCsvLength(lines: seq<string>)
    requires PlainFile(lines)
    requires forall i :: 0 <= i < |lines| ==> !IsComment(lines[i])
    ensures |UsersFromCsv(lines)| == |lines|
  {
    if lines != [] {
      assert !IsComment(lines[0]);
      UsersFromCsvLength(lines[1..]);
    }
  }

  lemma UsersFromCsvAt(lines: seq<string>, i: nat)
    requires PlainFile(lines)
    requires forall k :: 0 <= k < |lines| ==> !IsComment(lines[k])
    requires i < |lines|
    ensures i < |UsersFromCsv(lines)| && UsersFromCsv(lines)[i] == ParseUserLine(lines[i])
  {
    var before, after := lines[..i], lines[i..];
    assert lines == before + after;
    UsersFromCsvAppend(before, after);
    UsersFromCsvLength(before);
    UsersFromCsvCons(after);
    ElementAfterPrefix(UsersFromCsv(lines), UsersFromCsv(before), ParseUserLine(after[0]), UsersFromCsv(after[1..]));
  }

  /** The first line of a file that does not start with a comment gives the first record. */
  lemma UsersFromCsvCons(lines: seq<string>)
    requires PlainFile(lines) && lines != [] && !IsComment(lines[0])
    ensures PlainFile(lines[1..])
    ensures UsersFromCsv(lines) == [ParseUserLine(lines[0])] + UsersFromCsv(lines[1..])
  {
  }

  /** The loader reads a file line by line: the records of two parts follow each other. */
  lemma {:induction false} UsersFromCsvAppend(a: seq<string>, b: seq<string>)
    requires PlainFile(a) && PlainFile(b)
    ensures PlainFile(a + b)
    ensures UsersFromCsv(a + b) == UsersFromCsv(a) + UsersFromCsv(b)
  {
    PlainFileAppend(a, b);
    if a != [] {
      var head := if IsComment(a[0]) then [] else [ParseUserLine(a[0])];
      assert (a + b)[1..] == a[1..] + b;
      assert (a + b)[0] == a[0];
      assert UsersFromCsv(a + b) == head + UsersFromCsv(a[1..] + b);
      UsersFromCsvAppend(a[1..], b);
      AppendAssoc(head, UsersFromCsv(a[1..]), UsersFromCsv(b));
    } else {
      assert a + b == b;
    }
  }

  lemma PlainFileAppend(a: seq<string>, b: seq<string>)
    requires PlainFile(a) && PlainFile(b)
    ensures PlainFile(a + b)
  {
    forall i | 0 <= i < |a + b| ensures PlainLine((a + b)[i]) {
      if i < |a| {
        assert (a + b)[i] == a[i];
      } else {
        assert (a + b)[i] == b[i - |a|];
      }
    }
  }

  /** A comment line yields no record; any other line yields exactly its own. */
  lemma UsersFromCsvLine(line: string)
    requires PlainLine(line)
    ensures IsComment(line) ==> UsersFromCsv([line]) == []
    ensures !IsComment(line) ==> UsersFromCsv([line]) == [ParseUserLine(line)]
  {
    assert [line][1..] == [];
  }

  /** Every record of a file holds all seven schema keys, so `get_user_data` on them succeeds. */
  lemma {:induction false} UsersFromCsvHaveSchema(lines: seq<string>, i: nat, field: string)
    requires PlainFile(lines)
    requires i < |UsersFromCsv(lines)|
    requires field in Fieldnames
    ensures GetUserData(UsersFromCsv(lines)[i], field).Success?
  {
    var k := UsersFromCsvShift(lines, i);
    if k < 0 {
      ParseUserLineHasField(lines[0], field);
    } else {
      UsersFromCsvHaveSchema(lines[1..], k, field);
    }
  }

  /**
   * Where the i-th record of a file sits: it is the first line's record
   * (`k` is -1), or the k-th record of the rest of the file.
   */
  lemma UsersFromCsvShift(lines: seq<string>, i: nat) returns (k: int)
    requires PlainFile(lines)
    requires i < |UsersFromCsv(lines)|
    ensures lines != [] && PlainFile(lines[1..]) && PlainLine(lines[0])
    ensures k < 0 ==> UsersFromCsv(lines)[i] == ParseUserLine(lines[0])
    ensures 0 <= k < |UsersFromCsv(lines[1..])| || k < 0
    ensures 0 <= k ==> UsersFromCsv(lines)[i] == UsersFromCsv(lines[1..])[k]
  {
    var head := if IsComment(lines[0]) then [] else [ParseUserLine(lines[0])];
    UsersFromCsvUnfold(lines);
    ElementOfAppend(UsersFromCsv(lines), head, UsersFromCsv(lines[1..]), i);
    k := if i < |head| then -1 else i - |head|;
  }

  lemma UsersFromCsvUnfold(lines: seq<string>)
    requires PlainFile(lines) && lines != []
    ensures PlainFile(lines[1..]) && PlainLine(lines[0])
    ensures UsersFromCsv(lines) ==
              (if IsComment(lines[0]) then [] else [ParseUserLine(lines[0])]) + UsersFromCsv(lines[1..])
  {
  }

  lemma ParseUserLineHasField(line: string, field: string)
    requires PlainLine(line)
    requires field in Fieldnames
    ensures GetUserData(ParseUserLine(line), field).Success?
  {
    var k :| 0 <= k < 7 && Fieldnames[k] == field;
    assert Name(field) in FieldKeys;
    assert Name(field) in RowRecord(TrimAll(ReadRow(line)));
  }

  /** A blank line gives the seven schema keys, all `None`. */
  lemma BlankLineRecord()
    ensures ParseUserLine("") == map k | k in FieldKeys :: Null
  {
    RowRecordShort([]);
    var d := ParseUserLine("");
    forall k | k in FieldKeys ensures d[k] == Null {
      var i :| 0 <= i < 7 && k == Name(Fieldnames[i]);
    }
  }

  /**
   * A line written from two to seven plain, already trimmed fields loads as
   * those fields under the schema names, in order, with `None` for the
   * columns it lacks; an empty field stays `""`.
   */
  lemma ParseWrittenLine(fields: seq<string>)
    requires 2 <= |fields| <= 7
    requires forall i :: 0 <= i < |fields| ==> PlainField(fields[i]) && Trim(fields[i]) == fields[i]
    ensures PlainLine(WriteRow(fields))
    ensures ParseUserLine(WriteRow(fields)).Keys == FieldKeys
    ensures forall i :: 0 <= i < 7 ==>
              ParseUserLine(WriteRow(fields))[Name(Fieldnames[i])] ==
              if i < |fields| then Str(fields[i]) else Null
  {
    ReadWrittenRow(fields);
    assert TrimAll(fields) == fields;
    RowRecordShort(fields);
  }

  // ---------------------------------------------------------------------
  // Reading usernames

  /**
   * `get_usernames_from_csv`: the first field of every non-comment, non-blank
   * line, so a file without comments or blank lines gives each line's first
   * field, in file order.
   */
  function UsernamesFromCsv(lines: seq<string>): (r: seq<string>)
    requires PlainFile(lines)
    ensures |r| <= |lines|
    ensures (forall i :: 0 <= i < |lines| ==> !IsComment(lines[i]) && lines[i] != "") ==>
              |r| == |lines| && forall i :: 0 <= i < |lines| ==> r[i] == ReadRow(lines[i])[0]
  {
    if lines == [] then []
    else
      assert forall i :: 0 <= i < |lines| - 1 ==> lines[1..][i] == lines[i + 1];
      var row := if IsComment(lines[0]) then [] else ReadRow(lines[0]);
      var head := if row != [] then [row[0]] else [];
      var rest := UsernamesFromCsv(lines[1..]);
      assert (forall i :: 0 <= i < |lines| ==> !IsComment(lines[i]) && lines[i] != "") ==>
               |head + rest| == |lines| && forall i :: 0 <= i < |lines| ==> (head + rest)[i] == ReadRow(lines[i])[0] by {
        if forall i :: 0 <= i < |lines| ==> !IsComment(lines[i]) && lines[i] != "" {
          assert forall i :: 0 <= i < |lines| - 1 ==> !IsComment(lines[1..][i]) && lines[1..][i] != "";
          FirstFieldsCons(lines, head, rest);
        }
      }
      head + rest
  }

  /** The first fields of a file's lines are the first line's, then those of the rest. */
  lemma FirstFieldsCons(lines: seq<string>, head: seq<string>, rest: seq<string>)
    requires PlainFile(lines) && lines != [] && forall i :: 0 <= i < |lines| ==> lines[i] != ""
    requires head == [ReadRow(lines[0])[0]]
    requires |rest| == |lines| - 1 && forall i :: 0 <= i < |rest| ==> rest[i] == ReadRow(lines[i + 1])[0]
    ensures |head + rest| == |lines| && forall i :: 0 <= i < |lines| ==> (head + rest)[i] == ReadRow(lines[i])[0]
  {
    forall i | 0 <= i < |lines| ensures (head + rest)[i] == ReadRow(lines[i])[0] {
      if i > 0 {
        assert (head + rest)[i] == rest[i - 1];
      }
    }
  }

  lemma {:induction false} UsernamesFromCsvAppend(a: seq<string>, b: seq<string>)
    requires PlainFile(a) && PlainFile(b)
    ensures PlainFile(a + b)
    ensures UsernamesFromCsv(a + b) == UsernamesFromCsv(a) + UsernamesFromCsv(b)
  {
    PlainFileAppend(a, b);
    if a != [] {
      var row := if IsComment(a[0]) then [] else ReadRow(a[0]);
      var head := if row != [] then [row[0]] else [];
      assert (a + b)[1..] == a[1..] + b;
      assert (a + b)[0] == a[0];
      assert UsernamesFromCsv(a + b) == head + UsernamesFromCsv(a[1..] + b);
      UsernamesFromCsvAppend(a[1..], b);
      AppendAssoc(head, UsernamesFromCsv(a[1..]), UsernamesFromCsv(b));
    } else {
      assert a + b == b;
    }
  }

  /**
   * A comment or blank line gives no username; any other line gives its first
   * field, untrimmed: the text up to its first comma.
   */
  lemma UsernamesFromCsvLine(line: string)
    requires PlainLine(line)
    ensures IsComment(line) || line == "" ==> UsernamesFromCsv([line]) == []
    ensures !IsComment(line) && line != "" ==>
              |UsernamesFromCsv([line])| == 1 &&
              var u := UsernamesFromCsv([line])[0];
              StartsWith(line, u) && ',' !in u && (|u| == |line| || line[|u|] == ',')
  {
    assert [line][1..] == [];
    if !IsComment(line) && line != "" {
      var row := ReadRow(line);
      assert row == Split(line, ',');
      if ',' in line {
        var k := IndexOf(line, ',');
        assert row[0] == line[..k];
      }
    }
  }

  /** A blank line between rows contributes nothing and keeps the order of the others. */
  lemma UsernamesSkipBlankLine(a: seq<string>, b: seq<string>)
    requires PlainFile(a) && PlainFile(b)
    ensures PlainFile(a + [""] + b)
    ensures UsernamesFromCsv(a + [""] + b) == UsernamesFromCsv(a) + UsernamesFromCsv(b)
  {
    BlankLineNoUsername();
    var a' := a + [""];
    UsernamesFromCsvAppend(a, [""]);
    assert UsernamesFromCsv(a') == UsernamesFromCsv(a);
    UsernamesFromCsvAppend(a', b);
  }

  lemma BlankLineNoUsername()
    ensures UsernamesFromCsv([""]) == []
  {
    assert [""][1..] == [];
  }
}
