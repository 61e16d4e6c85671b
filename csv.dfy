/**
 * Python's `csv.writer` with its default "excel" dialect (delimiter `,`,
 * quote character `"`, quotes doubled inside a quoted field, minimal quoting,
 * records ended by `\r\n`), and a reader for the records that section 2 of
 * RFC 4180 describes. The reader is the writer's partner: reading what was
 * written gives back exactly the rows that were written.
 */
module Csv {
  import opened Options

  type Row = seq<string>

  /** A character that forces a field into quotes under minimal quoting. */
  predicate IsSpecial(c: char)
  {
    c == ',' || c == '"' || c == '\r' || c == '\n'
  }

  predicate NeedsQuotes(f: string)
  {
    ',' in f || '"' in f || '\r' in f || '\n' in f
  }

  /** Every quote doubled. */
  function Escape(f: string): string
  {
    if f == [] then []
    else (if f[0] == '"' then "\"\"" else [f[0]]) + Escape(f[1..])
  }

  /** Escaping adds exactly one character per quote. */
  lemma {:induction false} EscapeLength(f: string)
    ensures |Escape(f)| == |f| + multiset(f)['"']
  {
    if f != [] {
      assert f == [f[0]] + f[1..];
      EscapeLength(f[1..]);
    }
  }

  /** Escaping works character by character. */
  lemma {:induction false} EscapeAppend(a: string, b: string)
    ensures Escape(a + b) == Escape(a) + Escape(b)
  {
    if a == [] {
      assert a + b == b;
    } else {
      assert (a + b)[0] == a[0];
      assert (a + b)[1..] == a[1..] + b;
      EscapeAppend(a[1..], b);
    }
  }

  /** A quote becomes two quotes; any other character is kept. */
  lemma EscapeChar(c: char)
    ensures Escape([c]) == if c == '"' then "\"\"" else [c]
  {
    assert [c][1..] == [];
  }

  /** One field as the writer emits it: bare, or quoted with inner quotes doubled. */
  function EncodeField(f: string): (r: string)
    ensures (r != [] && r[0] == '"') <==> NeedsQuotes(f)
    ensures r == [] || r[0] != '\r'
  {
    if NeedsQuotes(f) then "\"" + Escape(f) + "\"" else f
  }

  /** Fields separated by commas. */
  function EncodeFields(fs: seq<string>): string
  {
    if fs == [] then ""
    else if |fs| == 1 then EncodeField(fs[0])
    else EncodeField(fs[0]) + "," + EncodeFields(fs[1..])
  }

  /**
   * One record, `writer.writerow(fs)`. A row made of one empty field is
   * written `""` so that it differs from an empty row.
   */
  function EncodeRecord(fs: Row): string
  {
    (if fs == [""] then "\"\"" else EncodeFields(fs)) + "\r\n"
  }

  /** The whole text a sequence of `writerow` calls leaves in the buffer. */
  function Serialize(rows: seq<Row>): string
  {
    if rows == [] then "" else EncodeRecord(rows[0]) + Serialize(rows[1..])
  }

  lemma {:induction false} SerializeAppend(a: seq<Row>, b: seq<Row>)
    ensures Serialize(a + b) == Serialize(a) + Serialize(b)
  {
    if a != [] {
      assert (a + b)[1..] == a[1..] + b;
      SerializeAppend(a[1..], b);
    } else {
      assert a + b == b;
    }
  }

  /** Writing one more row appends that row's record. */
  lemma SerializeSnoc(rows: seq<Row>, i: nat)
    requires i < |rows|
    ensures Serialize(rows[..i + 1]) == Serialize(rows[..i]) + EncodeRecord(rows[i])
  {
    SerializeAppend(rows[..i], [rows[i]]);
    assert rows[..i + 1] == rows[..i] + [rows[i]];
  }

  // ---------------------------------------------------------------------
  // Reading (section 2 of RFC 4180, every record ended by CRLF)
  // ---------------------------------------------------------------------

  /** The rest of a quoted field, `s` starting just after its opening quote. */
  function DecodeQuoted(s: string): (r: Option<(string, string)>)
    ensures r.Some? ==> |r.value.1| < |s|
    decreases |s|
  {
    if s == [] then None
    else if s[0] == '"' then
      if |s| >= 2 && s[1] == '"' then
        match DecodeQuoted(s[2..])
        case None => None
        case Some(p) => Some(("\"" + p.0, p.1))
      else Some(("", s[1..]))
    else
      match DecodeQuoted(s[1..])
      case None => None
      case Some(p) => Some(([s[0]] + p.0, p.1))
  }

  /** Index of the first comma, CR or LF in `s`, or `|s|`. */
  function BareEnd(s: string): (k: nat)
    ensures k <= |s|
    ensures forall i :: 0 <= i < k ==> s[i] != ',' && s[i] != '\r' && s[i] != '\n'
    ensures k < |s| ==> s[k] == ',' || s[k] == '\r' || s[k] == '\n'
  {
    if s == [] || s[0] == ',' || s[0] == '\r' || s[0] == '\n' then 0 else 1 + BareEnd(s[1..])
  }

  /** One field and the text after it. */
  function DecodeField(s: string): (r: Option<(string, string)>)
    ensures r.Some? ==> |r.value.1| <= |s|
  {
    if s != [] && s[0] == '"' then DecodeQuoted(s[1..])
    else
      var k := BareEnd(s);
      Some((s[..k], s[k..]))
  }

  /** Comma-separated fields up to and including the CRLF that ends the record. */
  function DecodeFields(s: string): (r: Option<(Row, string)>)
    ensures r.Some? ==> |r.value.1| < |s|
    decreases |s|
  {
    match DecodeField(s)
    case None => None
    case Some(p) =>
      var rest := p.1;
      if |rest| >= 2 && rest[..2] == "\r\n" then Some(([p.0], rest[2..]))
      else if rest != [] && rest[0] == ',' then
        match DecodeFields(rest[1..])
        case None => None
        case Some(q) => Some(([p.0] + q.0, q.1))
      else None
  }

  /** One record; a bare CRLF is the empty record. */
  function DecodeRecord(s: string): (r: Option<(Row, string)>)
    ensures r.Some? ==> |r.value.1| < |s|
  {
    if |s| >= 2 && s[..2] == "\r\n" then Some(([], s[2..])) else DecodeFields(s)
  }

  /** All records of a document, or `None` when it is not well formed. */
  function Parse(s: string): Option<seq<Row>>
    decreases |s|
  {
    if s == [] then Some([])
    else
      match DecodeRecord(s)
      case None => None
      case Some(p) =>
        match Parse(p.1)
        case None => None
        case Some(rows) => Some([p.0] + rows)
  }

  // ---------------------------------------------------------------------
  // Reading what was written
  // ---------------------------------------------------------------------

  lemma {:induction false} QuotedRoundTrip(f: string, t: string)
    requires t == [] || t[0] != '"'
    ensures DecodeQuoted(Escape(f) + "\"" + t) == Some((f, t))
  {
    var s := Escape(f) + "\"" + t;
    if f == [] {
      assert s == "\"" + t;
      assert s[1..] == t;
    } else if f[0] == '"' {
      assert s == "\"\"" + (Escape(f[1..]) + "\"" + t);
      assert s[2..] == Escape(f[1..]) + "\"" + t;
      QuotedRoundTrip(f[1..], t);
      assert "\"" + f[1..] == f;
    } else {
      assert s == [f[0]] + (Escape(f[1..]) + "\"" + t);
      assert s[1..] == Escape(f[1..]) + "\"" + t;
      QuotedRoundTrip(f[1..], t);
      assert [f[0]] + f[1..] == f;
    }
  }

  lemma {:induction false} BareEndOf(f: string, t: string)
    requires !NeedsQuotes(f)
    requires t == [] || t[0] == ',' || t[0] == '\r'
    ensures BareEnd(f + t) == |f|
  {
    if f != [] {
      assert f[0] in f;
      assert (f + t)[1..] == f[1..] + t;
      assert !NeedsQuotes(f[1..]) by {
        assert forall c :: c in f[1..] ==> c in f;
      }
      BareEndOf(f[1..], t);
    } else {
      assert f + t == t;
    }
  }

  /** A written field is read back whole when a comma, a CR or the end follows it. */
  lemma FieldRoundTrip(f: string, t: string)
    requires t == [] || t[0] == ',' || t[0] == '\r'
    ensures DecodeField(EncodeField(f) + t) == Some((f, t))
  {
    if NeedsQuotes(f) {
      QuotedFieldRoundTrip(f, t);
    } else {
      BareFieldRoundTrip(f, t);
    }
  }

  lemma QuotedFieldRoundTrip(f: string, t: string)
    requires NeedsQuotes(f)
    requires t == [] || t[0] == ',' || t[0] == '\r'
    ensures DecodeField(EncodeField(f) + t) == Some((f, t))
  {
    var s := EncodeField(f) + t;
    assert s == "\"" + (Escape(f) + "\"" + t);
    assert s[1..] == Escape(f) + "\"" + t;
    QuotedRoundTrip(f, t);
  }

  lemma BareFieldRoundTrip(f: string, t: string)
    requires !NeedsQuotes(f)
    requires t == [] || t[0] == ',' || t[0] == '\r'
    ensures DecodeField(EncodeField(f) + t) == Some((f, t))
  {
    var s := f + t;
    assert EncodeField(f) == f;
    BareEndOf(f, t);
    assert s[..|f|] == f && s[|f|..] == t;
    assert f != [] ==> f[0] in f;
  }

  lemma DecodeFieldsLast(s: string, f: string, rest: string)
    requires DecodeField(s) == Some((f, "\r\n" + rest))
    ensures DecodeFields(s) == Some(([f], rest))
  {
    assert ("\r\n" + rest)[..2] == "\r\n";
    assert ("\r\n" + rest)[2..] == rest;
  }

  lemma DecodeFieldsNext(s: string, f: string, tail: string)
    requires DecodeField(s) == Some((f, "," + tail))
    ensures DecodeFields(s) == match DecodeFields(tail)
                               case None => None
                               case Some(q) => Some(([f] + q.0, q.1))
  {
    var rest := "," + tail;
    assert rest[0] == ',';
    assert !(|rest| >= 2 && rest[..2] == "\r\n") by {
      assert |rest| >= 2 ==> rest[..2][0] == ',';
    }
    assert rest[1..] == tail;
  }

  lemma {:induction false} FieldsRoundTrip(fs: seq<string>, rest: string)
    requires fs != []
    ensures DecodeFields(EncodeFields(fs) + "\r\n" + rest) == Some((fs, rest))
  {
    if |fs| == 1 {
      LastFieldRoundTrip(fs[0], rest);
      assert [fs[0]] == fs;
    } else {
      FieldsRoundTrip(fs[1..], rest);
      NextFieldRoundTrip(fs[0], fs[1..], rest);
      assert [fs[0]] + fs[1..] == fs;
    }
  }

  lemma LastFieldRoundTrip(f: string, rest: string)
    ensures DecodeFields(EncodeFields([f]) + "\r\n" + rest) == Some(([f], rest))
  {
    var s := EncodeField(f) + ("\r\n" + rest);
    assert EncodeFields([f]) + "\r\n" + rest == s;
    FieldRoundTrip(f, "\r\n" + rest);
    DecodeFieldsLast(s, f, rest);
  }

  lemma NextFieldRoundTrip(f: string, more: seq<string>, rest: string)
    requires more != []
    requires DecodeFields(EncodeFields(more) + "\r\n" + rest) == Some((more, rest))
    ensures DecodeFields(EncodeFields([f] + more) + "\r\n" + rest) == Some(([f] + more, rest))
  {
    var e := EncodeField(f);
    var m := EncodeFields(more);
    var tail := m + "\r\n" + rest;
    EncodeFieldsCons(f, more);
    Regroup(e, m, rest);
    FieldRoundTrip(f, "," + tail);
    DecodeFieldsNext(e + ("," + tail), f, tail);
  }

  lemma Regroup(e: string, m: string, rest: string)
    ensures e + "," + m + "\r\n" + rest == e + ("," + (m + "\r\n" + rest))
  {
  }

  lemma EncodeFieldsCons(f: string, more: seq<string>)
    requires more != []
    ensures EncodeFields([f] + more) == EncodeField(f) + "," + EncodeFields(more)
  {
    assert ([f] + more)[1..] == more;
  }

  lemma RecordRoundTrip(fs: Row, rest: string)
    ensures DecodeRecord(EncodeRecord(fs) + rest) == Some((fs, rest))
  {
    if fs == [] {
      var s := EncodeRecord(fs) + rest;
      assert s == "\r\n" + rest;
      assert s[2..] == rest;
    } else if fs == [""] {
      BlankRecordRoundTrip(rest);
    } else {
      FieldsRecordRoundTrip(fs, rest);
    }
  }

  /** The row made of one empty field, written `""`. */
  lemma BlankRecordRoundTrip(rest: string)
    ensures DecodeRecord(EncodeRecord([""]) + rest) == Some(([""], rest))
  {
    var t := "\r\n" + rest;
    var s := "\"" + (Escape("") + "\"" + t);
    assert EncodeRecord([""]) + rest == s;
    QuotedRoundTrip("", t);
    assert s[1..] == Escape("") + "\"" + t;
    assert DecodeField(s) == Some(("", t));
    DecodeFieldsLast(s, "", rest);
    assert s[1] == '"';
  }

  /** A record with a non-empty field, or with several fields, does not start with CR. */
  lemma EncodeFieldsStart(fs: Row)
    requires fs != [] && fs != [""]
    ensures EncodeFields(fs) != [] && EncodeFields(fs)[0] != '\r'
  {
    if |fs| == 1 {
      assert fs[0] != "";
      assert NeedsQuotes(fs[0]) || fs[0][0] in fs[0];
    } else {
      assert EncodeFields(fs) == EncodeField(fs[0]) + "," + EncodeFields(fs[1..]);
    }
  }

  lemma FieldsRecordRoundTrip(fs: Row, rest: string)
    requires fs != [] && fs != [""]
    ensures DecodeRecord(EncodeRecord(fs) + rest) == Some((fs, rest))
  {
    var e := EncodeFields(fs);
    var s := e + "\r\n" + rest;
    assert EncodeRecord(fs) + rest == s;
    FieldsRoundTrip(fs, rest);
    EncodeFieldsStart(fs);
    assert s[0] == e[0];
    assert !(|s| >= 2 && s[..2] == "\r\n") by {
      assert |s| >= 2 ==> s[..2][0] == s[0];
    }
  }

  /** Reading a serialized document gives back exactly the rows written, in order. */
  lemma {:induction false} ParseSerialize(rows: seq<Row>)
    ensures Parse(Serialize(rows)) == Some(rows)
  {
    if rows != [] {
      RecordRoundTrip(rows[0], Serialize(rows[1..]));
      ParseSerialize(rows[1..]);
      assert [rows[0]] + rows[1..] == rows;
    }
  }

  /** Every record the writer emits ends in CRLF. */
  lemma RecordEndsInCrlf(fs: Row)
    ensures |EncodeRecord(fs)| >= 2
    ensures EncodeRecord(fs)[|EncodeRecord(fs)| - 2..] == "\r\n"
  {
  }
}
