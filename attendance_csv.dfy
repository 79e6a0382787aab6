/**
 * The CSV text built by `exportRecords` in
 * src/components/AttendanceRecord.tsx: a header row, one row per record
 * with the status shown as a label, fields joined by `,` and rows by a
 * line feed. `Split` is the reading side (`String.prototype.split`), used
 * to state what a consumer of the text gets back. Creating the Blob and
 * the download link is not modelled.
 */
module AttendanceCsv {

  /** One record as the attendance endpoint returns it. The TypeScript type
      only allows 'present' and 'absent', but nothing checks the JSON. */
  datatype AttendanceRecord = AttendanceRecord(studentName: string, timestamp: string, status: string)

  const HeaderFields: seq<string> := ["学生姓名", "时间", "状态"]

  /** `record.status === 'present' ? '出席' : '缺席'`. */
  function StatusLabel(status: string): string
  {
    if status == "present" then "出席" else "缺席"
  }

  /** Only `present` is shown as present; every other status reads absent. */
  lemma StatusLabels(status: string)
    ensures StatusLabel(status) == "出席" <==> status == "present"
    ensures StatusLabel(status) == "缺席" <==> status != "present"
  {
  }

  function RecordFields(record: AttendanceRecord): seq<string>
  {
    [record.studentName, record.timestamp, StatusLabel(record.status)]
  }

  /** `Array.prototype.join(sep)`. */
  function Join(parts: seq<string>, sep: char): string
  {
    if |parts| == 0 then []
    else if |parts| == 1 then parts[0]
    else parts[0] + [sep] + Join(parts[1..], sep)
  }

  /** The rows of the table, each already joined with `,`. */
  function Lines(records: seq<AttendanceRecord>): (lines: seq<string>)
    ensures |lines| == |records| + 1
  {
    [Join(HeaderFields, ',')] + seq(|records|, i requires 0 <= i < |records| => Join(RecordFields(records[i]), ','))
  }

  /** `csvContent`. */
  function CsvContent(records: seq<AttendanceRecord>): string
  {
    Join(Lines(records), '\n')
  }

  // ---------------------------------------------------------------------
  // The reading side

  /** `String.prototype.split(sep)` with a one-character separator. */
  function Split(s: string, sep: char): (parts: seq<string>)
    ensures |parts| >= 1
  {
    if s == [] then [[]]
    else
      var rest := Split(s[1..], sep);
      if s[0] == sep then [[]] + rest else [[s[0]] + rest[0]] + rest[1..]
  }

  /** How often `c` occurs in `s`. */
  function Count(s: string, c: char): nat
  {
    if s == [] then 0 else (if s[0] == c then 1 else 0) + Count(s[1..], c)
  }

  lemma {:induction false} CountAppend(a: string, b: string, c: char)
    ensures Count(a + b, c) == Count(a, c) + Count(b, c)
  {
    if a == [] {
      assert a + b == b;
    } else {
      assert (a + b)[0] == a[0] && (a + b)[1..] == a[1..] + b;
      CountAppend(a[1..], b, c);
    }
  }

  lemma {:induction false} CountAbsent(s: string, c: char)
    ensures Count(s, c) == 0 <==> c !in s
  {
    if s != [] {
      CountAbsent(s[1..], c);
      assert forall x :: x in s <==> x == s[0] || x in s[1..];
    }
  }

  /** Splitting yields one more piece than there are separators. */
  lemma {:induction false} SplitCount(s: string, sep: char)
    ensures |Split(s, sep)| == Count(s, sep) + 1
  {
    if s != [] {
      SplitCount(s[1..], sep);
    }
  }

  lemma {:induction false} SplitWithoutSeparator(s: string, sep: char)
    requires sep !in s
    ensures Split(s, sep) == [s]
  {
    if s != [] {
      assert s[0] != sep;
      SplitWithoutSeparator(s[1..], sep);
      assert [s[0]] + s[1..] == s;
    }
  }

  lemma {:induction false} SplitAtSeparator(p: string, sep: char, rest: string)
    requires sep !in p
    ensures Split(p + [sep] + rest, sep) == [p] + Split(rest, sep)
  {
    var s := p + [sep] + rest;
    if p == [] {
    } else {
      assert s[0] == p[0] && s[1..] == p[1..] + [sep] + rest;
      SplitAtSeparator(p[1..], sep, rest);
      assert [p[0]] + p[1..] == p;
    }
  }

  /** Splitting undoes joining when no part contains the separator. */
  lemma {:induction false} SplitJoin(parts: seq<string>, sep: char)
    requires |parts| >= 1
    requires forall i :: 0 <= i < |parts| ==> sep !in parts[i]
    ensures Split(Join(parts, sep), sep) == parts
  {
    if |parts| == 1 {
      SplitWithoutSeparator(parts[0], sep);
    } else {
      SplitJoin(parts[1..], sep);
      SplitAtSeparator(parts[0], sep, Join(parts[1..], sep));
    }
  }

  lemma JoinThree(a: string, b: string, c: string, sep: char)
    ensures Join([a, b, c], sep) == a + [sep] + b + [sep] + c
  {
    assert Join([c], sep) == c;
  }

  /** A join ends with the last character of its last part. */
  lemma {:induction false} JoinEnd(parts: seq<string>, sep: char)
    requires |parts| >= 1 && |parts[|parts| - 1]| >= 1
    ensures |Join(parts, sep)| >= 1
    ensures Join(parts, sep)[|Join(parts, sep)| - 1] == parts[|parts| - 1][|parts[|parts| - 1]| - 1]
  {
    if |parts| > 1 {
      JoinEnd(parts[1..], sep);
    }
  }

  // ---------------------------------------------------------------------
  // Properties of the export

  /** The text starts with the header row; with no records it is only that. */
  lemma CsvStartsWithHeader(records: seq<AttendanceRecord>)
    ensures Join(HeaderFields, ',') == "学生姓名,时间,状态"
    ensures records == [] ==> CsvContent(records) == "学生姓名,时间,状态"
    ensures records != [] ==> CsvContent(records)[..11] == "学生姓名,时间,状态\n"
  {
    JoinThree("学生姓名", "时间", "状态", ',');
  }

  /** Row i+1 reads `name,timestamp,label` for record i. */
  lemma CsvRow(records: seq<AttendanceRecord>, i: nat)
    requires i < |records|
    ensures Lines(records)[i + 1] ==
      records[i].studentName + "," + records[i].timestamp + "," + StatusLabel(records[i].status)
  {
    JoinThree(records[i].studentName, records[i].timestamp, StatusLabel(records[i].status), ',');
  }

  /** When no field holds a line feed, reading the text back line by line
      gives the header and then one row per record, in order. */
  lemma CsvLines(records: seq<AttendanceRecord>)
    requires forall i :: 0 <= i < |records| ==>
      '\n' !in records[i].studentName && '\n' !in records[i].timestamp
    ensures Split(CsvContent(records), '\n') == Lines(records)
  {
    var lines := Lines(records);
    forall k | 0 <= k < |lines| ensures '\n' !in lines[k] {
      if k > 0 {
        var r := records[k - 1];
        CsvRow(records, k - 1);
        assert lines[k] == r.studentName + "," + r.timestamp + "," + StatusLabel(r.status);
      } else {
        assert lines[0] == "学生姓名,时间,状态";
      }
    }
    SplitJoin(lines, '\n');
  }

  /** The text never ends with a line feed: it ends with the header's last
      character or the last record's status label. */
  lemma CsvNoTrailingNewline(records: seq<AttendanceRecord>)
    ensures |CsvContent(records)| >= 1
    ensures CsvContent(records)[|CsvContent(records)| - 1] == (if records == [] then '态' else '席')
  {
    var lines := Lines(records);
    if records == [] {
      assert lines[|lines| - 1] == "学生姓名,时间,状态";
    } else {
      var r := records[|records| - 1];
      CsvRow(records, |records| - 1);
      assert lines[|lines| - 1] == r.studentName + "," + r.timestamp + "," + StatusLabel(r.status);
    }
    JoinEnd(lines, '\n');
  }

  /** Fields are written as they are: a row splits back into its three
      fields exactly when name and timestamp hold no comma, and every comma
      in them adds a field. */
  lemma RowFields(record: AttendanceRecord)
    ensures |Split(Join(RecordFields(record), ','), ',')| ==
      3 + Count(record.studentName, ',') + Count(record.timestamp, ',')
    ensures ',' !in record.studentName && ',' !in record.timestamp ==>
      Split(Join(RecordFields(record), ','), ',') == RecordFields(record)
  {
    var name, time, tag := record.studentName, record.timestamp, StatusLabel(record.status);
    var row := Join(RecordFields(record), ',');
    JoinThree(name, time, tag, ',');
    assert row == name + [','] + (time + [','] + tag);
    CountAppend(name + [','], time + [','] + tag, ',');
    CountAppend(name, [','], ',');
    CountAppend(time + [','], tag, ',');
    CountAppend(time, [','], ',');
    CountAbsent(tag, ',');
    SplitCount(row, ',');
    if ',' !in name && ',' !in time {
      SplitJoin(RecordFields(record), ',');
    }
  }
}
