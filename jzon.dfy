/** The public surface of the library that exists so far: the decode error
    record with its derived line and column, the parse and encode
    configurations with their eager validation, and the argument checks of
    `loads`, which then reports that decoding is not implemented. */
module Jzon {

  // ---------------------------------------------------------------------------
  // Python values, as far as the checks below can tell them apart.
  // ---------------------------------------------------------------------------

  /** An argument as the library receives it: Python is dynamically typed, so a
      field declared `str` or `bool` may hold anything. */
  datatype PyObject =
    | PyNone
    | PyBool(boolValue: bool)
    | PyInt(intValue: int)
    | PyStr(strValue: string)
    | PyBytes(bytesValue: seq<int>)
    | PyOther(typeName: string)

  /** `isinstance(x, int)`: `bool` is a subclass of `int` in Python. */
  predicate IsInt(x: PyObject) {
    x.PyInt? || x.PyBool?
  }

  /** The integer an `int` (or `bool`) stands for. */
  function IntOf(x: PyObject): (n: int)
    requires IsInt(x)
  {
    if x.PyBool? then (if x.boolValue then 1 else 0) else x.intValue
  }

  /** The exceptions the core raises. */
  datatype PyException =
    | TypeError(message: string)
    | ValueError(message: string)
    | NotImplementedError(message: string)

  /** The outcome of a constructor that may raise. */
  datatype Result<T> = Ok(value: T) | Raise(error: PyException)

  // ---------------------------------------------------------------------------
  // The string operations the error record relies on.
  // ---------------------------------------------------------------------------

  /** `doc[0:pos]` for `pos >= 0`: a slice end past the text stops at its end. */
  function Prefix(doc: string, pos: nat): (p: string)
    ensures |p| == (if pos < |doc| then pos else |doc|)
    ensures p <= doc
  {
    if pos < |doc| then doc[..pos] else doc
  }

  /** `s.count(ch)` for a one-character `ch`: how often `ch` occurs in `s`. */
  function Count(s: string, ch: char): (n: nat)
    ensures n == multiset(s)[ch]
  {
    if |s| == 0 then 0
    else
      assert s == s[..|s| - 1] + [s[|s| - 1]];
      Count(s[..|s| - 1], ch) + (if s[|s| - 1] == ch then 1 else 0)
  }

  /** `s.rfind(ch)` for a one-character `ch`: the index of the last `ch` in
      `s`, or -1 when there is none. */
  function RFind(s: string, ch: char): (k: int)
    ensures -1 <= k < |s|
    ensures k >= 0 ==> s[k] == ch
    ensures forall i :: k < i < |s| ==> s[i] != ch
  {
    if |s| == 0 then -1
    else if s[|s| - 1] == ch then |s| - 1
    else RFind(s[..|s| - 1], ch)
  }

  /** The 1-based line of offset `pos` in `doc`: one more than the number of
      line feeds before `pos`. An empty document is all on line 1. */
  function LineNumber(doc: string, pos: nat): (line: nat)
    ensures line == 1 + multiset(Prefix(doc, pos))['\n']
  {
    if |doc| > 0 then Count(Prefix(doc, pos), '\n') + 1 else 1
  }

  /** The 1-based column of offset `pos` in `doc`: `pos` minus the index of
      the last line feed before it (-1 when there is none). An empty document
      gives `pos + 1`. */
  function ColumnNumber(doc: string, pos: nat): (col: int)
    ensures col >= 1
    ensures var before := Prefix(doc, pos);
      var k := pos - col;
      && -1 <= k < |before|
      && (k >= 0 ==> before[k] == '\n')
      && (forall i :: k < i < |before| ==> before[i] != '\n')
  {
    if |doc| > 0 then pos - RFind(Prefix(doc, pos), '\n') else pos + 1
  }

  /** Decimal digits of a natural number, as Python's `str(n)` prints them. */
  function NatToString(n: nat): (s: string)
    ensures |s| >= 1
    ensures forall i :: 0 <= i < |s| ==> '0' <= s[i] <= '9'
    ensures s[0] == '0' ==> n == 0
    ensures |s| > 1 ==> s[0] != '0'
    ensures DecimalValue(s) == n
  {
    var d := ['0' + (n % 10) as char];
    if n < 10 then d
    else
      var r := NatToString(n / 10) + d;
      assert r[..|r| - 1] == NatToString(n / 10);
      r
  }

  /** The number a string of decimal digits denotes. */
  function DecimalValue(s: string): nat
    requires forall i :: 0 <= i < |s| ==> '0' <= s[i] <= '9'
  {
    if |s| == 0 then 0
    else DecimalValue(s[..|s| - 1]) * 10 + (s[|s| - 1] - '0') as int
  }

  // ---------------------------------------------------------------------------
  // JSONDecodeError
  // ---------------------------------------------------------------------------

  /** A positioned decode error. `lineno` and `colno` are derived from `doc`
      and `pos` when the record is made. */
  datatype JsonDecodeError = JsonDecodeError(msg: string, doc: string, pos: nat, lineno: nat, colno: nat)

  /** Making the error record: `msg` must be a string and `pos` a non-negative
      integer (checked in that order); the line and column are then derived. */
  function NewJsonDecodeError(msg: PyObject, doc: string := "", pos: PyObject := PyInt(0)): (r: Result<JsonDecodeError>)
    ensures !msg.PyStr? ==> r == Raise(TypeError("msg must be a string"))
    ensures msg.PyStr? && !(IsInt(pos) && IntOf(pos) >= 0) ==>
      r == Raise(ValueError("pos must be a non-negative integer"))
    ensures r.Ok? <==> msg.PyStr? && IsInt(pos) && IntOf(pos) >= 0
    ensures r.Ok? ==>
      && r.value.msg == msg.strValue && r.value.doc == doc && r.value.pos == IntOf(pos)
      && r.value.lineno == LineNumber(doc, r.value.pos) && r.value.lineno >= 1
      && r.value.colno == ColumnNumber(doc, r.value.pos) && r.value.colno >= 1
  {
    if !msg.PyStr? then Raise(TypeError("msg must be a string"))
    else if !IsInt(pos) || IntOf(pos) < 0 then Raise(ValueError("pos must be a non-negative integer"))
    else
      var p: nat := IntOf(pos);
      Ok(JsonDecodeError(msg.strValue, doc, p, LineNumber(doc, p), ColumnNumber(doc, p)))
  }

  /** A `bool` position passes the check, as `isinstance(pos, int)` accepts
      it, and stands for 0 or 1. */
  lemma BoolPosition(m: string, doc: string, b: bool)
    ensures NewJsonDecodeError(PyStr(m), doc, PyBool(b)).Ok?
    ensures NewJsonDecodeError(PyStr(m), doc, PyBool(b)).value.pos == (if b then 1 else 0)
  {
  }

  /** The text the error carries as a `ValueError`: the message, then the
      line and the column in decimal. */
  function Message(e: JsonDecodeError): (m: string)
    ensures e.msg <= m
  {
    e.msg + " at line " + NatToString(e.lineno) + ", column " + NatToString(e.colno)
  }

  /** Two errors with the same message text and the same rendering are at the
      same line and column: the rendering can be read back. */
  lemma MessageDeterminesPosition(e1: JsonDecodeError, e2: JsonDecodeError)
    requires e1.msg == e2.msg && Message(e1) == Message(e2)
    ensures e1.lineno == e2.lineno && e1.colno == e2.colno
  {
    var l1, l2 := NatToString(e1.lineno), NatToString(e2.lineno);
    var c1, c2 := NatToString(e1.colno), NatToString(e2.colno);
    var head := e1.msg + " at line ";
    MessageSplit(e1, head, l1, c1);
    MessageSplit(e2, head, l2, c2);
    SplitAtComma(l1, ", column " + c1, l2, ", column " + c2);
    assert c1 == (", column " + c1)[9..];
    assert c2 == (", column " + c2)[9..];
  }

  /** The rendering is the message, the line digits, then the column part. */
  lemma MessageSplit(e: JsonDecodeError, head: string, l: string, c: string)
    requires head == e.msg + " at line " && l == NatToString(e.lineno) && c == NatToString(e.colno)
    ensures Message(e)[|head|..] == l + (", column " + c)
  {
    assert Message(e) == head + (l + (", column " + c));
  }

  /** A run of digits followed by a comma is read back uniquely from the
      whole string: the first comma ends it. */
  lemma SplitAtComma(d1: string, t1: string, d2: string, t2: string)
    requires forall i :: 0 <= i < |d1| ==> '0' <= d1[i] <= '9'
    requires forall i :: 0 <= i < |d2| ==> '0' <= d2[i] <= '9'
    requires |t1| > 0 && t1[0] == ',' && |t2| > 0 && t2[0] == ','
    requires d1 + t1 == d2 + t2
    ensures d1 == d2 && t1 == t2
  {
    var x := d1 + t1;
    DigitsBeforeComma(d1, t1);
    DigitsBeforeComma(d2, t2);
    assert |d1| == |d2|;
    assert d1 == x[..|d1|] == d2;
    assert t1 == x[|d1|..] == t2;
  }

  /** In a run of digits followed by a comma, the first comma comes right
      after the digits. */
  lemma DigitsBeforeComma(d: string, t: string)
    requires forall i :: 0 <= i < |d| ==> '0' <= d[i] <= '9'
    requires |t| > 0 && t[0] == ','
    ensures (d + t)[|d|] == ','
    ensures forall i :: 0 <= i < |d| ==> (d + t)[i] != ','
  {
  }

  /** Without a line feed before `pos` the error is on line 1 at column
      `pos + 1`, and conversely: either of the two tells that no line feed
      precedes `pos`. */
  lemma FirstLineIff(doc: string, pos: nat)
    ensures LineNumber(doc, pos) == 1 <==> '\n' !in Prefix(doc, pos)
    ensures ColumnNumber(doc, pos) == pos + 1 <==> '\n' !in Prefix(doc, pos)
  {
    var before := Prefix(doc, pos);
    var k := pos - ColumnNumber(doc, pos);
    if '\n' in before {
      var i :| 0 <= i < |before| && before[i] == '\n';
      assert k >= i;
    }
  }

  /** Moving one character forward: past a line feed the line grows by one and
      the column restarts at 1; past any other character the line stays and
      the column grows by one. */
  lemma LineColumnStep(doc: string, pos: nat)
    requires pos < |doc|
    ensures doc[pos] == '\n' ==>
      LineNumber(doc, pos + 1) == LineNumber(doc, pos) + 1 && ColumnNumber(doc, pos + 1) == 1
    ensures doc[pos] != '\n' ==>
      LineNumber(doc, pos + 1) == LineNumber(doc, pos) && ColumnNumber(doc, pos + 1) == ColumnNumber(doc, pos) + 1
  {
    var before, after := Prefix(doc, pos), Prefix(doc, pos + 1);
    assert after == before + [doc[pos]];
    var k, k' := pos - ColumnNumber(doc, pos), pos + 1 - ColumnNumber(doc, pos + 1);
    if doc[pos] == '\n' {
      assert k' == pos;
    } else {
      assert after[pos] != '\n';
    }
  }

  /** The single-line cases pinned down by the failure tests. */
  lemma LineColumnExamples()
    ensures NewJsonDecodeError(PyStr("Expecting value"), "!", PyInt(0)) ==
      Ok(JsonDecodeError("Expecting value", "!", 0, 1, 1))
    ensures NewJsonDecodeError(PyStr("Expecting value"), " !", PyInt(1)) ==
      Ok(JsonDecodeError("Expecting value", " !", 1, 1, 2))
    ensures NewJsonDecodeError(PyStr("Expecting value"), "\n!", PyInt(1)) ==
      Ok(JsonDecodeError("Expecting value", "\n!", 1, 2, 1))
  {
    assert Prefix("!", 0) == "";
    assert Prefix(" !", 1) == " ";
    assert Prefix("\n!", 1) == "\n";
  }

  /** The multi-line case of the failure tests: three line feeds before offset
      10, the last at index 4. */
  lemma MultiLineExample()
    ensures NewJsonDecodeError(PyStr("Expecting value"), "\n  \n\n     !", PyInt(10)) ==
      Ok(JsonDecodeError("Expecting value", "\n  \n\n     !", 10, 4, 6))
  {
    MultiLinePosition();
  }

  /** The message that error renders to. */
  lemma MessageExample()
    ensures Message(JsonDecodeError("Expecting value", "\n  \n\n     !", 10, 4, 6)) ==
      "Expecting value at line 4, column 6"
  {
    OneDigit(4);
    OneDigit(6);
  }

  /** A number below ten renders as its single digit. */
  lemma OneDigit(n: nat)
    requires n < 10
    ensures NatToString(n) == ['0' + n as char]
  {
  }

  lemma MultiLinePosition()
    ensures LineNumber("\n  \n\n     !", 10) == 4
    ensures ColumnNumber("\n  \n\n     !", 10) == 6
  {
    var before := "\n  \n\n     ";
    MultiLinePrefix();
    MultiLineFeeds(before);
    var k := 10 - ColumnNumber("\n  \n\n     !", 10);
    assert before[4] == '\n';
    assert forall i :: 4 < i < 10 ==> before[i] == ' ';
    assert k == 4;
  }

  lemma MultiLinePrefix()
    ensures Prefix("\n  \n\n     !", 10) == "\n  \n\n     "
  {
  }

  lemma MultiLineFeeds(before: string)
    requires before == "\n  \n\n     "
    ensures multiset(before)['\n'] == 3
  {
    assert before == ['\n'] + [' ', ' '] + ['\n'] + ['\n'] + [' ', ' ', ' ', ' ', ' '];
  }

  // ---------------------------------------------------------------------------
  // Configurations
  // ---------------------------------------------------------------------------

  /** Parse settings. `useDecimal` is stored as given: it is not checked. */
  datatype ParseConfig = ParseConfig(strict: bool, useDecimal: PyObject)

  /** Building a parse configuration: `strict` must be a `bool`. */
  function NewParseConfig(strict: PyObject := PyBool(true), useDecimal: PyObject := PyBool(false)): (r: Result<ParseConfig>)
    ensures r.Ok? <==> strict.PyBool?
    ensures r.Ok? ==> r.value.strict == strict.boolValue && r.value.useDecimal == useDecimal
    ensures r.Raise? ==> r.error == TypeError("strict must be a boolean")
  {
    if !strict.PyBool? then Raise(TypeError("strict must be a boolean"))
    else Ok(ParseConfig(strict.boolValue, useDecimal))
  }

  /** Encode settings. `indent` and `separators` are stored as given. */
  datatype EncodeConfig = EncodeConfig(skipkeys: bool, ensureAscii: bool, sortKeys: bool, indent: PyObject, separators: PyObject)

  /** Building an encode configuration: `skipkeys`, `ensure_ascii` and
      `sort_keys` must each be a `bool`; the first that is not is reported. */
  function NewEncodeConfig(
    skipkeys: PyObject := PyBool(false), ensureAscii: PyObject := PyBool(true), sortKeys: PyObject := PyBool(false),
    indent: PyObject := PyNone, separators: PyObject := PyNone): (r: Result<EncodeConfig>)
    ensures r.Ok? <==> skipkeys.PyBool? && ensureAscii.PyBool? && sortKeys.PyBool?
    ensures !skipkeys.PyBool? ==> r == Raise(TypeError("skipkeys must be a boolean"))
    ensures skipkeys.PyBool? && !ensureAscii.PyBool? ==> r == Raise(TypeError("ensure_ascii must be a boolean"))
    ensures skipkeys.PyBool? && ensureAscii.PyBool? && !sortKeys.PyBool? ==> r == Raise(TypeError("sort_keys must be a boolean"))
    ensures r.Ok? ==> r.value == EncodeConfig(skipkeys.boolValue, ensureAscii.boolValue, sortKeys.boolValue, indent, separators)
  {
    if !skipkeys.PyBool? then Raise(TypeError("skipkeys must be a boolean"))
    else if !ensureAscii.PyBool? then Raise(TypeError("ensure_ascii must be a boolean"))
    else if !sortKeys.PyBool? then Raise(TypeError("sort_keys must be a boolean"))
    else Ok(EncodeConfig(skipkeys.boolValue, ensureAscii.boolValue, sortKeys.boolValue, indent, separators))
  }

  /** Building a configuration again from the fields of one already built gives
      the same configuration: validation accepts everything it produces. */
  lemma ConfigRebuild(p: ParseConfig, e: EncodeConfig)
    ensures NewParseConfig(PyBool(p.strict), p.useDecimal) == Ok(p)
    ensures NewEncodeConfig(PyBool(e.skipkeys), PyBool(e.ensureAscii), PyBool(e.sortKeys), e.indent, e.separators) == Ok(e)
  {
  }

  // ---------------------------------------------------------------------------
  // loads
  // ---------------------------------------------------------------------------

  /** What `loads(s, strict=..., use_decimal=...)` raises. Non-`str` input is
      rejected before the configuration is looked at; with valid arguments it
      reports that decoding is not implemented. It never returns a value. */
  function Loads(s: PyObject, strict: PyObject := PyBool(true), useDecimal: PyObject := PyBool(false)): (e: PyException)
    ensures !s.PyStr? ==> e == TypeError("the JSON object must be str, not bytes")
    ensures s.PyStr? ==> (e.TypeError? <==> !strict.PyBool?)
    ensures s.PyStr? && !strict.PyBool? ==> e == TypeError("strict must be a boolean")
    ensures s.PyStr? && strict.PyBool? ==> e == NotImplementedError("jzon.loads not yet implemented")
  {
    if !s.PyStr? then TypeError("the JSON object must be str, not bytes")
    else
      match NewParseConfig(strict, useDecimal)
      case Raise(err) => err
      case Ok(_) => NotImplementedError("jzon.loads not yet implemented")
  }
}
