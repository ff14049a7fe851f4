/** One CSV record: the row that the exports write, and the reader of the welcome board. */
module Csv {
  import opened Wrappers
  import opened Text

  // ----- Writing --------------------------------------------------------------------------------

  predicate Special(c: char) {
    c == '"' || c == ',' || c == '\r' || c == '\n'
  }

  function Doubled(s: string): string {
    if s == [] then [] else (if s[0] == '"' then "\"\"" else [s[0]]) + Doubled(s[1..])
  }

  /** None is null or undefined. */
  function EscapeCsvField(value: Option<string>): string {
    var s := value.GetOr("");
    if exists i :: 0 <= i < |s| && Special(s[i]) then "\"" + Doubled(s) + "\"" else s
  }

  function ToCsvRow(values: seq<Option<string>>): string {
    if values == [] then ""
    else if |values| == 1 then EscapeCsvField(values[0])
    else EscapeCsvField(values[0]) + "," + ToCsvRow(values[1..])
  }

  // ----- Reading --------------------------------------------------------------------------------

  /** The fields that the reader finds in the rest of the line, after the fields already found;
      cur is the field it is in, quoted whether it is between quotes. */
  function Scan(rest: string, fields: seq<string>, cur: string, quoted: bool): seq<string>
    decreases |rest|
  {
    if rest == [] then fields + [cur]
    else if quoted then
      if rest[0] != '"' then Scan(rest[1..], fields, cur + [rest[0]], true)
      else if |rest| > 1 && rest[1] == '"' then Scan(rest[2..], fields, cur + "\"", true)
      else Scan(rest[1..], fields, cur, false)
    else if rest[0] == '"' then Scan(rest[1..], fields, cur, true)
    else if rest[0] == ',' then Scan(rest[1..], fields + [cur], "", false)
    else Scan(rest[1..], fields, cur + [rest[0]], false)
  }

  function Trimmed(fields: seq<string>): seq<string> {
    seq(|fields|, i requires 0 <= i < |fields| => Trim(fields[i]))
  }

  function Fields(line: string): seq<string> {
    Trimmed(Scan(line, [], "", false))
  }

  method ParseLine(line: string) returns (fields: seq<string>)
    ensures fields == Fields(line)
  {
    var out, cur, inQ := [], "", false;
    var i := 0;
    while i < |line|
      invariant i <= |line| && Scan(line[i..], out, cur, inQ) == Scan(line, [], "", false)
    {
      var c := line[i];
      assert line[i..][1..] == line[i + 1..];
      if inQ {
        if c == '"' {
          if i + 1 < |line| && line[i + 1] == '"' {
            assert line[i..][2..] == line[i + 2..];
            cur := cur + "\"";
            i := i + 1;
          } else {
            inQ := false;
          }
        } else {
          cur := cur + [c];
        }
      } else if c == '"' {
        inQ := true;
      } else if c == ',' {
        out := out + [cur];
        cur := "";
      } else {
        cur := cur + [c];
      }
      i := i + 1;
    }
    out := out + [cur];
    fields := seq(|out|, k requires 0 <= k < |out| => Trim(out[k]));
  }

  // ----- Reading what was written -------------------------------------------------------------------

  lemma {:induction false} ScanPlain(v: string, rest: string, fields: seq<string>, cur: string)
    requires '"' !in v && ',' !in v
    ensures Scan(v + rest, fields, cur, false) == Scan(rest, fields, cur + v, false)
    decreases |v|
  {
    if v == [] {
      assert v + rest == rest && cur + v == cur;
    } else {
      assert (v + rest)[1..] == v[1..] + rest;
      assert v[0] in v;
      ScanPlain(v[1..], rest, fields, cur + [v[0]]);
      assert cur + [v[0]] + v[1..] == cur + v;
    }
  }

  lemma {:induction false} ScanQuoted(v: string, rest: string, fields: seq<string>, cur: string)
    requires rest == [] || rest[0] != '"'
    ensures Scan(Doubled(v) + "\"" + rest, fields, cur, true) == Scan(rest, fields, cur + v, false)
    decreases |v|
  {
    var line := Doubled(v) + "\"" + rest;
    if v == [] {
      assert line[1..] == rest && cur + v == cur;
    } else {
      var next := Doubled(v[1..]) + "\"" + rest;
      ScanQuoted(v[1..], rest, fields, cur + [v[0]]);
      assert cur + [v[0]] + v[1..] == cur + v;
      if v[0] == '"' {
        assert line == "\"\"" + next;
        assert line[2..] == next;
      } else {
        assert line == [v[0]] + next;
        assert line[1..] == next;
      }
    }
  }

  lemma ScanOpens(tail: string, fields: seq<string>, cur: string)
    ensures Scan("\"" + tail, fields, cur, false) == Scan(tail, fields, cur, true)
  {
    assert ("\"" + tail)[1..] == tail;
  }

  lemma ScanField(value: Option<string>, rest: string, fields: seq<string>)
    requires rest == [] || rest[0] == ','
    ensures Scan(EscapeCsvField(value) + rest, fields, "", false) == Scan(rest, fields, value.GetOr(""), false)
  {
    hide Scan, Doubled;
    var v := value.GetOr("");
    assert "" + v == v;
    if exists i :: 0 <= i < |v| && Special(v[i]) {
      var tail := Doubled(v) + "\"" + rest;
      assert EscapeCsvField(value) + rest == "\"" + tail;
      ScanOpens(tail, fields, "");
      ScanQuoted(v, rest, fields, "");
    } else {
      assert forall i :: 0 <= i < |v| ==> !Special(v[i]);
      ScanPlain(v, rest, fields, "");
    }
  }

  lemma {:induction false} ScanUnclosed(v: string, fields: seq<string>, cur: string)
    ensures Scan(Doubled(v), fields, cur, true) == fields + [cur + v]
    decreases |v|
  {
    if v != [] {
      var line, next := Doubled(v), Doubled(v[1..]);
      ScanUnclosed(v[1..], fields, cur + [v[0]]);
      assert cur + [v[0]] + v[1..] == cur + v;
      assert line[if v[0] == '"' then 2 else 1..] == next;
    } else {
      assert cur + v == cur;
    }
  }

  /** Lines that the exports do not write: quotes may open and close in the middle of a field, and one
      that is never closed runs to the end of the line, commas and doubled quotes included. */
  lemma StrayQuotes(v: string, quoted: string, w: string)
    requires '"' !in v && ',' !in v && '"' !in w && ',' !in w
    ensures Fields(v + "\"" + Doubled(quoted) + "\"" + w) == [Trim(v + quoted + w)]
    ensures Fields(v + "\"" + Doubled(quoted)) == [Trim(v + quoted)]
  {
    hide Doubled, Trim;
    var closed, open := Doubled(quoted) + "\"" + w, Doubled(quoted);
    assert v + "\"" + Doubled(quoted) + "\"" + w == v + ("\"" + closed) && v + "\"" + Doubled(quoted) == v + ("\"" + open);
    ScanPlain(v, "\"" + closed, [], "");
    ScanPlain(v, "\"" + open, [], "");
    ScanOpens(closed, [], "" + v);
    ScanOpens(open, [], "" + v);
    assert w != [] ==> w[0] in w;
    ScanQuoted(quoted, w, [], "" + v);
    ScanUnclosed(quoted, [], "" + v);
    ScanPlain(w, "", [], "" + v + quoted);
    assert w + "" == w && "" + v + quoted + w == v + quoted + w && "" + v + quoted == v + quoted;
  }

  /** Which characters make a field need quotes. */
  predicate NeedsQuotes(v: string) {
    '"' in v || ',' in v || '\r' in v || '\n' in v
  }

  /** A field is put in quotes exactly when it needs them, and is written as it is otherwise. */
  lemma QuotedWhenNeeded(v: string)
    ensures !NeedsQuotes(v) ==> EscapeCsvField(Some(v)) == v
    ensures NeedsQuotes(v) ==> EscapeCsvField(Some(v)) == "\"" + Doubled(v) + "\""
  {
    if NeedsQuotes(v) {
      var c :| c in v && Special(c);
      var i :| 0 <= i < |v| && v[i] == c;
    }
  }

  /** Between the quotes every quote stands twice, and everything else once. */
  lemma {:induction false} DoubledIs(v: string, w: string, c: char)
    ensures Doubled([]) == [] && Doubled([c]) == (if c == '"' then [c, c] else [c]) && Doubled(v + w) == Doubled(v) + Doubled(w)
  {
    assert Doubled([c][1..]) == [];
    if v == [] {
      assert v + w == w;
    } else {
      DoubledIs(v[1..], w, c);
      assert (v + w)[1..] == v[1..] + w;
    }
  }

  function Texts(values: seq<Option<string>>): seq<string> {
    seq(|values|, i requires 0 <= i < |values| => values[i].GetOr(""))
  }

  lemma {:induction false} ScanRow(values: seq<Option<string>>, fields: seq<string>)
    requires values != []
    ensures Scan(ToCsvRow(values), fields, "", false) == fields + Texts(values)
    decreases |values|
  {
    hide EscapeCsvField;
    var v := values[0].GetOr("");
    if |values| == 1 {
      assert EscapeCsvField(values[0]) + "" == ToCsvRow(values);
      ScanField(values[0], "", fields);
      assert Texts(values) == [v];
    } else {
      var tail := "," + ToCsvRow(values[1..]);
      assert EscapeCsvField(values[0]) + tail == ToCsvRow(values);
      ScanField(values[0], tail, fields);
      assert tail[1..] == ToCsvRow(values[1..]);
      ScanRow(values[1..], fields + [v]);
      assert fields + [v] + Texts(values[1..]) == fields + Texts(values);
    }
  }

  /** Reading a written row gives back the values, each trimmed, exactly when there are any: the
      empty row reads as one empty field. */
  lemma RowRoundTrip(values: seq<Option<string>>)
    ensures Fields(ToCsvRow(values)) == Trimmed(Texts(values)) <==> values != []
  {
    if values != [] {
      ScanRow(values, []);
      assert [] + Texts(values) == Texts(values);
    }
  }

  /** The values come back unchanged exactly when there are any and none has white space at an end. */
  lemma RowUnchanged(values: seq<Option<string>>)
    ensures Fields(ToCsvRow(values)) == Texts(values) <==>
            values != [] && forall i :: 0 <= i < |values| ==> Trim(values[i].GetOr("")) == values[i].GetOr("")
  {
    RowRoundTrip(values);
    hide Fields, ToCsvRow, Trim;
    if values != [] {
      var texts := Texts(values);
      assert Trimmed(texts) == texts <==> forall i :: 0 <= i < |texts| ==> Trimmed(texts)[i] == texts[i];
      assert forall i :: 0 <= i < |values| ==> texts[i] == values[i].GetOr("") && Trimmed(texts)[i] == Trim(texts[i]);
    } else {
      EmptyRow();
    }
  }

  lemma EmptyRow()
    ensures |Fields(ToCsvRow([]))| == 1
  {
  }
}
