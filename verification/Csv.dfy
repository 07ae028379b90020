/** pkg/action/tool/builtin_tools.go: splitting one CSV line, and the writer side of section 2 of RFC 4180. */
module Csv {

  type Line = seq<char>

  // --- the reader ---------------------------------------------------------------------------

  /** The scanner's state: the finished fields, the field being built, and whether a quote is open. */
  datatype Scan = Scan(fields: seq<Line>, cur: Line, inQuote: bool)

  /** The fields of `line` when the scanner stands at its first byte in state `st`. */
  function Rest(line: Line, st: Scan): seq<Line>
    decreases |line|
  {
    if line == [] then st.fields + [st.cur]
    else if line[0] == '"' && !st.inQuote then Rest(line[1..], st.(inQuote := true))
    else if line[0] == '"' && |line| > 1 && line[1] == '"' then Rest(line[2..], st.(cur := st.cur + "\""))
    else if line[0] == '"' then Rest(line[1..], st.(inQuote := false))
    else if line[0] == ',' && !st.inQuote then Rest(line[1..], st.(fields := st.fields + [st.cur], cur := ""))
    else Rest(line[1..], st.(cur := st.cur + [line[0]]))
  }

  function Split(line: Line): seq<Line> {
    Rest(line, Scan([], "", false))
  }

  method SplitCSVLine(line: Line) returns (fields: seq<Line>)
    ensures fields == Split(line)
  {
    fields := [];
    var cur := "";
    var inQuote := false;
    var i := 0;
    assert line[0..] == line;
    while i < |line|
      invariant i <= |line|
      invariant Rest(line[i..], Scan(fields, cur, inQuote)) == Split(line)
    {
      var c := line[i];
      ghost var here := line[i..];
      assert here[0] == c && here[1..] == line[i + 1..];
      if c == '"' && !inQuote {
        inQuote := true;
      } else if c == '"' && inQuote {
        if i + 1 < |line| && line[i + 1] == '"' {
          assert here[1] == '"' && here[2..] == line[i + 2..];
          cur := cur + "\"";
          i := i + 1;
        } else {
          inQuote := false;
        }
      } else if c == ',' && !inQuote {
        fields := fields + [cur];
        cur := "";
      } else {
        cur := cur + [c];
      }
      i := i + 1;
    }
    fields := fields + [cur];
  }

  // --- the same, by counting quotes --------------------------------------------------------------

  /** How many of the first `n` bytes are quotes. */
  function Quotes(line: Line, n: nat): nat
    requires n <= |line|
  {
    if n == 0 then 0 else Quotes(line, n - 1) + if line[n - 1] == '"' then 1 else 0
  }

  /** An odd number of quotes stands before position `i`. */
  predicate Inside(line: Line, i: nat)
    requires i <= |line|
  {
    Quotes(line, i) % 2 == 1
  }

  predicate Separates(line: Line, i: nat)
    requires i < |line|
  {
    line[i] == ',' && !Inside(line, i)
  }

  /** A quote stands for itself exactly if it opens right behind one that closes. */
  predicate Escaped(line: Line, i: nat)
    requires i < |line|
  {
    i > 0 && line[i] == '"' && line[i - 1] == '"' && !Inside(line, i)
  }

  /** The text that the bytes from `lo` up to `hi` stand for. */
  function Text(line: Line, lo: nat, hi: nat): Line
    requires lo <= hi <= |line|
    decreases hi
  {
    if lo == hi then ""
    else Text(line, lo, hi - 1) + if line[hi - 1] != '"' || Escaped(line, hi - 1) then [line[hi - 1]] else ""
  }

  /** Where the field that position `n` belongs to begins. */
  function FieldStart(line: Line, n: nat): (lo: nat)
    requires n <= |line|
    ensures lo <= n
  {
    if n == 0 then 0 else if Separates(line, n - 1) then n else FieldStart(line, n - 1)
  }

  /** The fields that end before position `n`. */
  function FieldsBefore(line: Line, n: nat): seq<Line>
    requires n <= |line|
  {
    if n == 0 then []
    else FieldsBefore(line, n - 1) + if Separates(line, n - 1) then [Text(line, FieldStart(line, n - 1), n - 1)] else []
  }

  /** The scanner's state at position `n`, if it does not stop inside a doubled quote. */
  function StateAt(line: Line, n: nat): Scan
    requires n <= |line|
  {
    Scan(FieldsBefore(line, n), Text(line, FieldStart(line, n), n), Inside(line, n))
  }

  /** Between the two quotes of a doubled one the scanner never stops. */
  predicate Between(line: Line, n: nat)
    requires n <= |line|
  {
    0 < n < |line| && line[n - 1] == '"' && line[n] == '"' && !Inside(line, n)
  }

  /** The fields, read off the numbers of quotes: they end at the commas behind an even number of quotes, and a quote counts
      as text only if it opens right behind one that closes. */
  function ByCounting(line: Line): seq<Line> {
    FieldsBefore(line, |line|) + [Text(line, FieldStart(line, |line|), |line|)]
  }

  lemma {:induction false} ScansByCounting(line: Line, n: nat)
    requires n <= |line| && !Between(line, n)
    ensures Rest(line[n..], StateAt(line, n)) == ByCounting(line)
    decreases |line| - n
  {
    if n < |line| {
      var st := StateAt(line, n);
      assert line[n..][0] == line[n] && line[n..][1..] == line[n + 1..];
      if line[n] == '"' && Inside(line, n) && n + 1 < |line| && line[n + 1] == '"' {
        DoubledStep(line, n);
        assert line[n..][1] == line[n + 1] && line[n..][2..] == line[n + 2..];
        ScansByCounting(line, n + 2);
      } else {
        SingleStep(line, n);
        ScansByCounting(line, n + 1);
      }
    } else {
      assert line[n..] == [];
    }
  }

  lemma DoubledStep(line: Line, n: nat)
    requires n + 1 < |line| && line[n] == '"' == line[n + 1] && Inside(line, n)
    ensures !Between(line, n + 2)
    ensures StateAt(line, n + 2) == StateAt(line, n).(cur := StateAt(line, n).cur + "\"")
  {
    QuoteStep(line, n);
    QuoteStep(line, n + 1);
    assert Escaped(line, n + 1) && !Escaped(line, n);
  }

  lemma QuoteStep(line: Line, n: nat)
    requires n < |line| && line[n] == '"'
    ensures StateAt(line, n + 1) == Scan(FieldsBefore(line, n),
                                         Text(line, FieldStart(line, n), n) + (if Escaped(line, n) then "\"" else ""),
                                         !Inside(line, n))
  {
    assert !Separates(line, n) && FieldsBefore(line, n + 1) == FieldsBefore(line, n) + [];
  }

  lemma SingleStep(line: Line, n: nat)
    requires n < |line| && !Between(line, n)
    requires !(line[n] == '"' && Inside(line, n) && n + 1 < |line| && line[n + 1] == '"')
    ensures !Between(line, n + 1)
    ensures var st, st', c := StateAt(line, n), StateAt(line, n + 1), line[n];
            if c == '"' then st' == st.(inQuote := !st.inQuote)
            else if c == ',' && !st.inQuote then st' == Scan(st.fields + [st.cur], "", false)
            else st' == st.(cur := st.cur + [c])
  {
    var lo := FieldStart(line, n);
    assert !Escaped(line, n);
    if Separates(line, n) {
      assert FieldStart(line, n + 1) == n + 1;
    } else {
      assert FieldStart(line, n + 1) == lo;
      assert Text(line, lo, n + 1) == Text(line, lo, n) + if line[n] != '"' then [line[n]] else "";
      assert FieldsBefore(line, n + 1) == FieldsBefore(line, n) + [];
    }
  }

  /** On every line, well-formed or not, the scanner returns the fields that counting the quotes gives. */
  lemma SplitByCounting(line: Line)
    ensures Split(line) == ByCounting(line)
  {
    assert line[0..] == line && StateAt(line, 0) == Scan([], "", false);
    ScansByCounting(line, 0);
  }

  // --- the writer ---------------------------------------------------------------------------

  /** RFC 4180 allows a field to stand bare when it holds no quote, no comma and no line break. */
  predicate MayStandBare(f: Line) {
    forall k :: 0 <= k < |f| ==> f[k] != '"' && f[k] != ',' && f[k] != '\r' && f[k] != '\n'
  }

  function Doubled(f: Line): Line {
    if f == "" then "" else (if f[0] == '"' then "\"\"" else [f[0]]) + Doubled(f[1..])
  }

  /** A field and the writer's choice whether to quote it. */
  datatype Cell = Cell(text: Line, quoted: bool) {
    predicate Allowed() {
      quoted || MayStandBare(text)
    }

    function Written(): Line {
      if quoted then "\"" + Doubled(text) + "\"" else text
    }
  }

  function Joined(cells: seq<Cell>): Line
    requires cells != []
  {
    if |cells| == 1 then cells[0].Written() else cells[0].Written() + "," + Joined(cells[1..])
  }

  function Texts(cells: seq<Cell>): (ts: seq<Line>)
    ensures |ts| == |cells|
  {
    seq(|cells|, k requires 0 <= k < |cells| => cells[k].text)
  }

  predicate EndsField(rest: Line) {
    rest == "" || rest[0] == ','
  }

  lemma {:induction false} ScanDoubled(f: Line, rest: Line, st: Scan)
    requires st.inQuote && EndsField(rest)
    ensures Rest(Doubled(f) + "\"" + rest, st) == Rest(rest, st.(cur := st.cur + f, inQuote := false))
    decreases |f|
  {
    var line := Doubled(f) + "\"" + rest;
    if f == "" {
      assert line[1..] == rest;
      assert st.cur + f == st.cur;
    } else {
      var tail := Doubled(f[1..]) + "\"" + rest;
      var next := st.(cur := st.cur + [f[0]]);
      if f[0] == '"' {
        assert line[2..] == tail && line[1] == '"';
      } else {
        assert line[1..] == tail;
      }
      ScanDoubled(f[1..], rest, next);
      assert next.cur + f[1..] == st.cur + f;
    }
  }

  lemma {:induction false} ScanBare(f: Line, rest: Line, st: Scan)
    requires !st.inQuote && MayStandBare(f)
    ensures Rest(f + rest, st) == Rest(rest, st.(cur := st.cur + f))
    decreases |f|
  {
    if f == "" {
      assert f + rest == rest && st.cur + f == st.cur;
    } else {
      var next := st.(cur := st.cur + [f[0]]);
      assert (f + rest)[1..] == f[1..] + rest;
      ScanBare(f[1..], rest, next);
      assert next.cur + f[1..] == st.cur + f;
    }
  }

  lemma ScanCell(c: Cell, rest: Line, fields: seq<Line>)
    requires c.Allowed() && EndsField(rest)
    ensures Rest(c.Written() + rest, Scan(fields, "", false)) == Rest(rest, Scan(fields, c.text, false))
  {
    if c.quoted {
      var line := c.Written() + rest;
      assert line[1..] == Doubled(c.text) + "\"" + rest;
      ScanDoubled(c.text, rest, Scan(fields, "", true));
      assert "" + c.text == c.text;
    } else {
      ScanBare(c.text, rest, Scan(fields, "", false));
      assert "" + c.text == c.text;
    }
  }

  lemma {:induction false} ScanCells(cells: seq<Cell>, fields: seq<Line>)
    requires cells != [] && forall k :: 0 <= k < |cells| ==> cells[k].Allowed()
    ensures Rest(Joined(cells), Scan(fields, "", false)) == fields + Texts(cells)
    decreases |cells|
  {
    var c := cells[0];
    if |cells| == 1 {
      ScanCell(c, "", fields);
      assert c.Written() + "" == c.Written();
      assert Texts(cells) == [c.text];
    } else {
      var rest := "," + Joined(cells[1..]);
      assert Joined(cells) == c.Written() + rest;
      ScanCell(c, rest, fields);
      assert rest[1..] == Joined(cells[1..]);
      ScanCells(cells[1..], fields + [c.text]);
      assert fields + [c.text] + Texts(cells[1..]) == fields + Texts(cells);
    }
  }

  /** Whatever mixture of quoted and bare cells the writer chooses, the reader returns the same fields. */
  lemma {:induction false} RoundTrip(cells: seq<Cell>)
    requires cells != [] && forall k :: 0 <= k < |cells| ==> cells[k].Allowed()
    ensures Split(Joined(cells)) == Texts(cells)
  {
    ScanCells(cells, []);
    assert [] + Texts(cells) == Texts(cells);
  }

  // --- when a field may really stand bare ---------------------------------------------------

  function Total(fields: seq<Line>): nat {
    if fields == [] then 0 else |fields[0]| + Total(fields[1..])
  }

  lemma {:induction false} TotalPush(fields: seq<Line>, f: Line)
    ensures Total(fields + [f]) == Total(fields) + |f|
    decreases |fields|
  {
    if fields != [] {
      assert (fields + [f])[1..] == fields[1..] + [f];
      TotalPush(fields[1..], f);
    }
  }

  predicate Special(line: Line, inQuote: bool) {
    '"' in line || (!inQuote && ',' in line)
  }

  /** The scanner drops every separating comma and at least one byte for every quote it meets. */
  lemma {:induction false} ScanLoses(line: Line, st: Scan)
    ensures Total(Rest(line, st)) <= Total(st.fields) + |st.cur| + |line|
    ensures Special(line, st.inQuote) ==> Total(Rest(line, st)) < Total(st.fields) + |st.cur| + |line|
    decreases |line|
  {
    if line == [] {
      TotalPush(st.fields, st.cur);
    } else if line[0] == '"' && !st.inQuote {
      ScanLoses(line[1..], st.(inQuote := true));
    } else if line[0] == '"' && |line| > 1 && line[1] == '"' {
      ScanLoses(line[2..], st.(cur := st.cur + "\""));
    } else if line[0] == '"' {
      ScanLoses(line[1..], st.(inQuote := false));
    } else if line[0] == ',' && !st.inQuote {
      TotalPush(st.fields, st.cur);
      ScanLoses(line[1..], st.(fields := st.fields + [st.cur], cur := ""));
    } else {
      ScanLoses(line[1..], st.(cur := st.cur + [line[0]]));
      assert forall c :: c in line ==> c == line[0] || c in line[1..];
    }
  }

  lemma {:induction false} ScanPlain(f: Line, st: Scan)
    requires !st.inQuote && !Special(f, false)
    ensures Rest(f, st) == st.fields + [st.cur + f]
    decreases |f|
  {
    if f == "" {
      assert st.cur + f == st.cur;
    } else {
      ScanPlain(f[1..], st.(cur := st.cur + [f[0]]));
      assert st.cur + [f[0]] + f[1..] == st.cur + f;
    }
  }

  /** An unquoted text is read back as one field exactly when it has neither quote nor comma. */
  lemma BareExactly(f: Line)
    ensures Split(f) == [f] <==> '"' !in f && ',' !in f
  {
    ScanLoses(f, Scan([], "", false));
    assert Total([f]) == |f|;
    if !Special(f, false) {
      ScanPlain(f, Scan([], "", false));
      assert "" + f == f;
    }
  }
}
