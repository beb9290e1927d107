/** The CSV serialiser `exportToCsv` (src/lib/utils.ts): one-level
    flattening of each row, a de-duplicated header list in first-seen order,
    and comma-joined lines that quote only cells containing a comma. The
    Blob/anchor download that follows is not modelled. */
module Csv {
  import Types
  import opened JsString

  /** A JavaScript value as a CSV cell can hold it. Numbers are integers
      here; `Obj` is a plain object whose keys keep insertion order. */
  datatype Value =
    | Undefined
    | Null
    | Str(s: string)
    | Num(n: int)
    | Bool(b: bool)
    | Obj(entries: seq<(string, Value)>)

  type Entry = (string, Value)

  /** A JavaScript object: its own enumerable keys in insertion order. */
  type Row = seq<Entry>

  function Keys(row: Row): (ks: seq<string>)
    ensures |ks| == |row|
    decreases |row|
  {
    if row == [] then [] else [row[0].0] + Keys(row[1..])
  }

  lemma {:induction false} KeysAppend(a: Row, b: Row)
    ensures Keys(a + b) == Keys(a) + Keys(b)
    decreases |a|
  {
    if a == [] {
      assert a + b == b;
    } else {
      assert (a + b)[1..] == a[1..] + b;
      KeysAppend(a[1..], b);
    }
  }

  lemma {:induction false} KeyAt(row: Row, i: nat)
    requires i < |row|
    ensures Keys(row)[i] == row[i].0
    decreases i
  {
    if i > 0 {
      KeyAt(row[1..], i - 1);
    }
  }

  /** The keys of a row are the first components of its entries. */
  lemma KeysAreFirsts(row: Row)
    ensures forall i :: 0 <= i < |row| ==> Keys(row)[i] == row[i].0
  {
    forall i | 0 <= i < |row| ensures Keys(row)[i] == row[i].0 {
      KeyAt(row, i);
    }
  }

  /** In a row without repeated keys, a later key is not among the earlier ones. */
  lemma NoDupKeysHead(a: Row, b: Row)
    requires NoDup(Keys(a + b)) && |b| > 0
    ensures b[0].0 !in Keys(a)
  {
    KeysAppend(a, b);
    KeyAt(b, 0);
    NoDupHead(Keys(a), Keys(b));
  }

  /** `row[key]`: the value under `key`, or `undefined`. */
  function Lookup(row: Row, key: string): (v: Value)
    ensures key !in Keys(row) ==> v == Undefined
    decreases |row|
  {
    if row == [] then Undefined
    else if row[0].0 == key then row[0].1
    else Lookup(row[1..], key)
  }

  /** The value under a key is the one of its first entry. */
  lemma {:induction false} LookupFirst(row: Row, i: nat)
    requires i < |row|
    requires forall j :: 0 <= j < i ==> row[j].0 != row[i].0
    ensures Lookup(row, row[i].0) == row[i].1
    decreases i
  {
    if i > 0 {
      LookupFirst(row[1..], i - 1);
    }
  }

  /** `obj[key] = v`: an existing key keeps its position and takes the new
      value, a new key goes last. */
  function Put(row: Row, key: string, v: Value): (r: Row)
    ensures key in Keys(row) ==> Keys(r) == Keys(row)
    ensures key !in Keys(row) ==> Keys(r) == Keys(row) + [key]
    ensures Lookup(r, key) == v
    ensures forall k :: k != key ==> Lookup(r, k) == Lookup(row, k)
    decreases |row|
  {
    if row == [] then [(key, v)]
    else if row[0].0 == key then [(key, v)] + row[1..]
    else [row[0]] + Put(row[1..], key, v)
  }

  lemma PutNewKeyAppends(row: Row, key: string, v: Value)
    requires key !in Keys(row)
    ensures Put(row, key, v) == row + [(key, v)]
  {
  }

  /** The inner `for (const nestedKey in nestedObject)` loop: each nested
      field is stored under `key_nestedKey`. */
  function PutNested(acc: Row, key: string, nested: Row): (r: Row)
    ensures |r| >= |acc| && Keys(r)[..|acc|] == Keys(acc)
    ensures (forall i :: 0 <= i < |nested| ==> key + "_" + nested[i].0 in Keys(acc)) ==> Keys(r) == Keys(acc)
    ensures |nested| > 0 ==> Lookup(r, key + "_" + nested[|nested| - 1].0) == nested[|nested| - 1].1
    decreases |nested|
  {
    if nested == [] then acc
    else
      var acc' := Put(acc, key + "_" + nested[0].0, nested[0].1);
      var r := PutNested(acc', key, nested[1..]);
      assert Keys(r)[..|acc|] == Keys(r)[..|acc'|][..|acc|];
      r
  }

  /** One iteration of the outer `for (const key in row)` loop: a non-null
      object is flattened one level, anything else is copied under its key. */
  function FlattenEntry(acc: Row, e: Entry): (r: Row)
    ensures |r| >= |acc| && Keys(r)[..|acc|] == Keys(acc)
    ensures !e.1.Obj? ==> Lookup(r, e.0) == e.1
    ensures !e.1.Obj? ==> forall k :: k != e.0 ==> Lookup(r, k) == Lookup(acc, k)
  {
    match e.1
    case Obj(nested) => PutNested(acc, e.0, nested)
    case _ => Put(acc, e.0, e.1)
  }

  /** The outer loop from `acc` on: columns already present keep their
      position. */
  function FlattenFrom(acc: Row, row: Row): (r: Row)
    ensures |r| >= |acc| && Keys(r)[..|acc|] == Keys(acc)
    decreases |row|
  {
    if row == [] then acc
    else
      var acc' := FlattenEntry(acc, row[0]);
      var r := FlattenFrom(acc', row[1..]);
      assert Keys(r)[..|acc|] == Keys(r)[..|acc'|][..|acc|];
      r
  }

  /** The flat row built for one input row. */
  function FlatRow(row: Row): Row {
    FlattenFrom([], row)
  }

  // ---------------------------------------------------------------------
  // A reference definition of flattening: each field expands to its own
  // column(s), and the row is the concatenation of the expansions.

  function Prefixed(key: string, nested: Row): (r: Row)
    ensures |r| == |nested|
    ensures forall i :: 0 <= i < |r| ==> r[i] == (key + "_" + nested[i].0, nested[i].1)
    decreases |nested|
  {
    if nested == [] then [] else [(key + "_" + nested[0].0, nested[0].1)] + Prefixed(key, nested[1..])
  }

  function Expand(e: Entry): Row {
    match e.1
    case Obj(nested) => Prefixed(e.0, nested)
    case _ => [e]
  }

  function ExpandAll(row: Row): Row
    decreases |row|
  {
    if row == [] then [] else Expand(row[0]) + ExpandAll(row[1..])
  }

  lemma {:induction false} PutNestedAppends(acc: Row, key: string, nested: Row)
    requires NoDup(Keys(acc + Prefixed(key, nested)))
    ensures PutNested(acc, key, nested) == acc + Prefixed(key, nested)
    decreases |nested|
  {
    if nested != [] {
      var p := Prefixed(key, nested);
      var e := (key + "_" + nested[0].0, nested[0].1);
      NoDupKeysHead(acc, p);
      PutNewKeyAppends(acc, e.0, e.1);
      assert p == [e] + Prefixed(key, nested[1..]);
      assert (acc + [e]) + Prefixed(key, nested[1..]) == acc + p;
      PutNestedAppends(acc + [e], key, nested[1..]);
    }
  }

  /** When no two expanded columns collide, flattening is concatenation of
      the expansions: primitive and null fields keep their key, object
      fields become `key_nestedKey` columns, all in input order. */
  lemma {:induction false} FlattenFromIsExpansion(acc: Row, row: Row)
    requires NoDup(Keys(acc + ExpandAll(row)))
    ensures FlattenFrom(acc, row) == acc + ExpandAll(row)
    decreases |row|
  {
    if row != [] {
      var x := Expand(row[0]);
      var rest := ExpandAll(row[1..]);
      assert acc + ExpandAll(row) == (acc + x) + rest;
      assert NoDup(Keys(acc + x)) by {
        KeysAppend(acc + x, rest);
        NoDupPrefix(Keys(acc + x), Keys(rest));
      }
      if row[0].1.Obj? {
        PutNestedAppends(acc, row[0].0, row[0].1.entries);
      } else {
        NoDupKeysHead(acc, x);
        PutNewKeyAppends(acc, row[0].0, row[0].1);
      }
      FlattenFromIsExpansion(acc + x, row[1..]);
    }
  }

  /** Without column collisions, the flat row is the concatenation of the
      field expansions. */
  lemma FlatRowIsExpansion(row: Row)
    requires NoDup(Keys(ExpandAll(row)))
    ensures FlatRow(row) == ExpandAll(row)
  {
    assert [] + ExpandAll(row) == ExpandAll(row);
    FlattenFromIsExpansion([], row);
  }

  predicate NoObjects(row: Row) {
    forall i :: 0 <= i < |row| ==> !row[i].1.Obj?
  }

  /** A row without object fields and without repeated keys is its own flattening. */
  lemma {:induction false} FlatRowOfFlatRow(row: Row)
    requires NoObjects(row) && NoDup(Keys(row))
    ensures FlatRow(row) == row
  {
    ExpandAllOfFlat(row);
    FlatRowIsExpansion(row);
  }

  lemma {:induction false} ExpandAllOfFlat(row: Row)
    requires NoObjects(row)
    ensures ExpandAll(row) == row
    decreases |row|
  {
    if row != [] {
      ExpandAllOfFlat(row[1..]);
      assert [row[0]] + row[1..] == row;
    }
  }

  /** Flattening never repeats a key, whatever the input. */
  lemma {:induction false} FlattenFromNoDup(acc: Row, row: Row)
    requires NoDup(Keys(acc))
    ensures NoDup(Keys(FlattenFrom(acc, row)))
    decreases |row|
  {
    if row != [] {
      FlattenEntryNoDup(acc, row[0]);
      FlattenFromNoDup(FlattenEntry(acc, row[0]), row[1..]);
    }
  }

  lemma FlattenEntryNoDup(acc: Row, e: Entry)
    requires NoDup(Keys(acc))
    ensures NoDup(Keys(FlattenEntry(acc, e)))
  {
    match e.1
    case Obj(nested) => PutNestedNoDup(acc, e.0, nested);
    case _ =>
  }

  lemma {:induction false} PutNestedNoDup(acc: Row, key: string, nested: Row)
    requires NoDup(Keys(acc))
    ensures NoDup(Keys(PutNested(acc, key, nested)))
    decreases |nested|
  {
    if nested != [] {
      PutNestedNoDup(Put(acc, key + "_" + nested[0].0, nested[0].1), key, nested[1..]);
    }
  }

  /** A later object field whose expanded columns all exist already adds no
      column: it overwrites those columns in place, the last nested value
      winning. */
  lemma {:induction false} LaterFieldOverwrites(acc: Row, key: string, nested: Row)
    requires |nested| > 0
    requires forall i :: 0 <= i < |nested| ==> key + "_" + nested[i].0 in Keys(acc)
    ensures Keys(FlattenEntry(acc, (key, Obj(nested)))) == Keys(acc)
    ensures Lookup(FlattenEntry(acc, (key, Obj(nested))), key + "_" + nested[|nested| - 1].0) == nested[|nested| - 1].1
  {
    assert FlattenEntry(acc, (key, Obj(nested))) == PutNested(acc, key, nested);
  }

  // ---------------------------------------------------------------------
  // Headers: `[...new Set(rows.flatMap(row => Object.keys(row)))]`.

  function AllKeys(rows: seq<Row>): seq<string>
    decreases |rows|
  {
    if rows == [] then [] else Keys(rows[0]) + AllKeys(rows[1..])
  }

  /** Inserting into a JavaScript `Set` and spreading it back: an element
      already present is ignored, a new one goes last. */
  function SetInsertAll(acc: seq<string>, s: seq<string>): (r: seq<string>)
    ensures |r| >= |acc| && r[..|acc|] == acc
    ensures forall x :: x in r <==> x in acc || x in s
    ensures NoDup(acc) ==> NoDup(r)
    decreases |s|
  {
    if s == [] then acc
    else SetInsertAll(if s[0] in acc then acc else acc + [s[0]], s[1..])
  }

  function Dedup(s: seq<string>): (r: seq<string>)
    ensures r == FirstOccurrences(s)
  {
    assert [] + s == s;
    SetInsertAllIsFirstOccurrences([], s);
    SetInsertAll([], s)
  }

  /** Reference definition: keep each element at its first occurrence. */
  function FirstOccurrences(s: seq<string>): (r: seq<string>)
    ensures forall x :: x in r <==> x in s
    ensures NoDup(r)
    decreases |s|
  {
    if s == [] then []
    else
      var init := s[..|s| - 1];
      var last := s[|s| - 1];
      assert s == init + [last];
      if last in init then FirstOccurrences(init) else FirstOccurrences(init) + [last]
  }

  lemma {:induction false} SetInsertAllIsFirstOccurrences(s1: seq<string>, s2: seq<string>)
    ensures SetInsertAll(FirstOccurrences(s1), s2) == FirstOccurrences(s1 + s2)
    decreases |s2|
  {
    if s2 == [] {
      assert s1 + s2 == s1;
    } else {
      var s1' := s1 + [s2[0]];
      assert s1' + s2[1..] == s1 + s2;
      assert s1'[..|s1'| - 1] == s1;
      SetInsertAllIsFirstOccurrences(s1', s2[1..]);
    }
  }

  /** Index of the first occurrence of `x` in `s`. */
  function FirstIndex(s: seq<string>, x: string): (i: nat)
    requires x in s
    ensures i < |s| && s[i] == x && x !in s[..i]
    decreases |s|
  {
    if s[0] == x then 0
    else
      var i := 1 + FirstIndex(s[1..], x);
      assert s[..i] == [s[0]] + s[1..][..i - 1];
      i
  }

  lemma {:induction false} FirstIndexOfPrefix(p: seq<string>, t: seq<string>, x: string)
    requires x in p
    ensures FirstIndex(p + t, x) == FirstIndex(p, x)
    decreases |p|
  {
    if p[0] != x {
      assert (p + t)[1..] == p[1..] + t;
      FirstIndexOfPrefix(p[1..], t, x);
    }
  }

  /** Headers come out in the order their keys are first seen. */
  lemma {:induction false} FirstOccurrencesOrdered(s: seq<string>)
    ensures forall i, j :: 0 <= i < j < |FirstOccurrences(s)| ==>
      FirstIndex(s, FirstOccurrences(s)[i]) < FirstIndex(s, FirstOccurrences(s)[j])
    decreases |s|
  {
    if s != [] {
      var init := s[..|s| - 1];
      var last := s[|s| - 1];
      assert s == init + [last];
      var d := FirstOccurrences(init);
      FirstOccurrencesOrdered(init);
      forall x | x in init ensures FirstIndex(s, x) == FirstIndex(init, x) {
        FirstIndexOfPrefix(init, [last], x);
      }
      if last !in init {
        assert FirstIndex(s, last) == |init|;
      }
    }
  }

  /** Elements already seen add nothing to the first occurrences. */
  lemma {:induction false} FirstOccurrencesAbsorbs(s1: seq<string>, s2: seq<string>)
    requires forall x :: x in s2 ==> x in s1
    ensures FirstOccurrences(s1 + s2) == FirstOccurrences(s1)
    decreases |s2|
  {
    if s2 != [] {
      var init := s2[..|s2| - 1];
      var last := s2[|s2| - 1];
      var t := s1 + s2;
      assert t[..|t| - 1] == s1 + init;
      assert t[|t| - 1] == last;
      assert last in s2;
      assert last in s1 + init;
      forall x | x in init ensures x in s1 {
        assert x in s2;
      }
      FirstOccurrencesAbsorbs(s1, init);
    } else {
      assert s1 + s2 == s1;
    }
  }

  lemma {:induction false} FirstOccurrencesOfDistinct(s: seq<string>)
    requires NoDup(s)
    ensures FirstOccurrences(s) == s
    decreases |s|
  {
    if s != [] {
      var init := s[..|s| - 1];
      assert s == init + [s[|s| - 1]];
      FirstOccurrencesOfDistinct(init);
    }
  }

  /** `headers`: every key of every row exactly once, in first-seen order. */
  function Headers(rows: seq<Row>): (hs: seq<string>)
    ensures NoDup(hs)
    ensures forall k :: k in hs <==> k in AllKeys(rows)
  {
    Dedup(AllKeys(rows))
  }

  lemma HeadersInFirstSeenOrder(rows: seq<Row>)
    ensures forall i, j :: 0 <= i < j < |Headers(rows)| ==>
      FirstIndex(AllKeys(rows), Headers(rows)[i]) < FirstIndex(AllKeys(rows), Headers(rows)[j])
  {
    FirstOccurrencesOrdered(AllKeys(rows));
  }

  // ---------------------------------------------------------------------
  // Cells and lines.

  /** `String(value)` for a value that is neither `undefined` nor `null`. */
  function Stringify(v: Value): (r: string)
    ensures v.Str? ==> r == v.s
    ensures !v.Str? ==> ',' !in r && '"' !in r && '\n' !in r
  {
    match v
    case Undefined => "undefined"
    case Null => "null"
    case Str(s) => s
    case Num(n) => IntToString(n)
    case Bool(b) => if b then "true" else "false"
    case Obj(_) => "[object Object]"
  }

  /** One cell: missing values are empty, a value whose text contains a
      comma is quoted with inner quotes doubled, anything else is verbatim. */
  function Cell(v: Value): (c: string)
    ensures v == Undefined || v == Null ==> c == ""
    ensures v != Undefined && v != Null && ',' !in Stringify(v) ==> c == Stringify(v)
    ensures v != Undefined && v != Null && ',' in Stringify(v) ==>
      && |c| >= 2 && c[0] == '"' && c[|c| - 1] == '"'
      && UndoubleQuotes(c[1..|c| - 1]) == Stringify(v)
  {
    if v == Undefined || v == Null then ""
    else if ',' in Stringify(v) then
      var q := "\"" + DoubleQuotes(Stringify(v)) + "\"";
      assert q[1..|q| - 1] == DoubleQuotes(Stringify(v));
      UndoubleDoubleQuotes(Stringify(v));
      q
    else Stringify(v)
  }

  /** How an RFC 4180 reader takes a single field back: a field that starts
      and ends with a quote is unquoted and its doubled quotes undone. */
  function DecodeField(c: string): string {
    if |c| >= 2 && c[0] == '"' && c[|c| - 1] == '"' then UndoubleQuotes(c[1..|c| - 1]) else c
  }

  /** The cell reads back as the value's text, unless the text starts with
      a quote and has no comma: such a cell is left unquoted although a
      reader would take it as quoted. */
  lemma CellDecodes(v: Value)
    requires v != Undefined && v != Null
    requires ',' in Stringify(v) || Stringify(v) == [] || Stringify(v)[0] != '"'
    ensures DecodeField(Cell(v)) == Stringify(v)
  {
  }

  /** Text with quotes or line breaks but no comma is emitted verbatim. */
  lemma UnquotedWithoutComma(s: string)
    requires ',' !in s
    ensures Cell(Str(s)) == s
  {
  }

  /** So a value that is itself quoted text without a comma is emitted
      as it is and reads back with its outer quotes stripped: text `"s"`
      comes back as `s` when `s` holds no quote. */
  lemma QuotedTextMisread(s: string)
    requires ',' !in s
    ensures Cell(Str("\"" + s + "\"")) == "\"" + s + "\""
    ensures DecodeField(Cell(Str("\"" + s + "\""))) == UndoubleQuotes(s)
    ensures '"' !in s ==> DecodeField(Cell(Str("\"" + s + "\""))) == s
  {
    var c := "\"" + s + "\"";
    assert c[1..|c| - 1] == s;
  }

  /** Numbers and booleans are never quoted; `undefined` and `null` give
      the empty cell. */
  lemma ScalarsAreVerbatim(n: int, b: bool)
    ensures Cell(Num(n)) == IntToString(n)
    ensures Cell(Bool(b)) == (if b then "true" else "false")
    ensures Cell(Undefined) == "" && Cell(Null) == ""
  {
  }

  function Cells(row: Row, headers: seq<string>): (cs: seq<string>)
    ensures |cs| == |headers|
  {
    seq(|headers|, j requires 0 <= j < |headers| => Cell(Lookup(row, headers[j])))
  }

  function FlatRows(data: seq<Row>): (flat: seq<Row>)
    ensures |flat| == |data|
  {
    seq(|data|, i requires 0 <= i < |data| => FlatRow(data[i]))
  }

  /** The lines built from the flat rows: the header line, then one line
      per row. */
  function LinesOf(flat: seq<Row>): (lines: seq<string>)
    ensures |lines| == |flat| + 1
  {
    var hs := Headers(flat);
    [Join(hs, ",")] + seq(|flat|, i requires 0 <= i < |flat| => Join(Cells(flat[i], hs), ","))
  }

  /** The lines of the document: the header line, then one line per row. */
  function CsvLines(data: seq<Row>): (lines: seq<string>)
    ensures |lines| == |data| + 1
  {
    LinesOf(FlatRows(data))
  }

  /** The document `exportToCsv` downloads, or `None` when it returns early. */
  function CsvDocument(data: seq<Row>): (doc: Types.Option<string>)
    ensures doc.None? <==> |data| == 0
  {
    if |data| == 0 then Types.None else Types.Some(Join(CsvLines(data), "\n"))
  }

  /** Line `i + 1` holds one cell per header, in header order. */
  lemma DataLineCells(data: seq<Row>, i: nat)
    requires i < |data|
    ensures CsvLines(data)[i + 1] == Join(Cells(FlatRows(data)[i], Headers(FlatRows(data))), ",")
    ensures forall j :: 0 <= j < |Headers(FlatRows(data))| ==>
      Cells(FlatRows(data)[i], Headers(FlatRows(data)))[j]
        == Cell(Lookup(FlatRow(data[i]), Headers(FlatRows(data))[j]))
    ensures forall j :: 0 <= j < |Headers(FlatRows(data))| && Headers(FlatRows(data))[j] !in Keys(FlatRow(data[i])) ==>
      Cells(FlatRows(data)[i], Headers(FlatRows(data)))[j] == ""
  {
    var flat := FlatRows(data);
    var hs := Headers(flat);
    assert flat[i] == FlatRow(data[i]);
    var cs := Cells(flat[i], hs);
    forall j | 0 <= j < |hs| ensures cs[j] == Cell(Lookup(flat[i], hs[j])) {
    }
  }

  /** When no header or cell text holds a line break, splitting the document
      at line breaks gives back exactly the header line and one line per row. */
  lemma LinesSeparate(data: seq<Row>)
    requires |data| > 0
    requires forall h :: h in Headers(FlatRows(data)) ==> '\n' !in h
    requires forall i, j :: 0 <= i < |data| && 0 <= j < |Headers(FlatRows(data))| ==>
      '\n' !in Cells(FlatRows(data)[i], Headers(FlatRows(data)))[j]
    ensures Split(CsvDocument(data).value, '\n') == CsvLines(data)
    ensures |Split(CsvDocument(data).value, '\n')| == |data| + 1
  {
    var flat := FlatRows(data);
    var hs := Headers(flat);
    var lines := CsvLines(data);
    forall i | 0 <= i < |lines| ensures '\n' !in lines[i] {
      if i == 0 {
        assert lines[0] == Join(hs, ",");
        JoinAvoids(hs, ",", '\n');
      } else {
        var cs := Cells(flat[i - 1], hs);
        assert lines[i] == Join(cs, ",");
        JoinAvoids(cs, ",", '\n');
      }
    }
    assert CsvDocument(data).value == Join(lines, "\n");
    SplitJoin(lines, '\n');
  }

  // ---------------------------------------------------------------------
  // The imperative part: building each flat row by key assignment.

  /** The body of `data.map(row => { ... })`: two nested `for...in` loops
      assigning into `flatRow`. */
  method FlattenRow(row: Row) returns (flat: Row)
    ensures flat == FlatRow(row)
  {
    flat := [];
    for i := 0 to |row|
      invariant FlattenFrom(flat, row[i..]) == FlatRow(row)
    {
      assert row[i..][0] == row[i] && row[i..][1..] == row[i + 1..];
      var key := row[i].0;
      var value := row[i].1;
      if value.Obj? {
        var nested := value.entries;
        ghost var before := flat;
        for j := 0 to |nested|
          invariant PutNested(flat, key, nested[j..]) == PutNested(before, key, nested)
        {
          assert nested[j..][0] == nested[j] && nested[j..][1..] == nested[j + 1..];
          flat := Put(flat, key + "_" + nested[j].0, nested[j].1);
        }
        assert nested[|nested|..] == [];
      } else {
        flat := Put(flat, key, value);
      }
    }
    assert row[|row|..] == [];
  }

  /** `exportToCsv` up to the download: nothing for no rows, otherwise the
      CSV text. */
  method ExportToCsv(data: seq<Row>) returns (content: Types.Option<string>)
    ensures content == CsvDocument(data)
  {
    if |data| == 0 {
      return Types.None;
    }
    var flat := FlattenRows(data);
    content := Types.Some(Join(LinesOf(flat), "\n"));
  }

  /** `data.map(row => { ... })`: one flat row per input row. */
  method FlattenRows(data: seq<Row>) returns (flat: seq<Row>)
    ensures flat == FlatRows(data)
  {
    flat := [];
    for i := 0 to |data|
      invariant |flat| == i
      invariant forall k :: 0 <= k < i ==> flat[k] == FlatRow(data[k])
    {
      var r := FlattenRow(data[i]);
      flat := flat + [r];
    }
  }
}
