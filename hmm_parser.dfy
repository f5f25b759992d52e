/// `parse_hmm_multiprot`: reads a multi-protein HMMER3 profile, line by line,
/// into a map from protein name to the match-state emission rows of its
/// profile, one row per residue.
module HmmParser {
  import opened Common

  /// One emission field: the text of a number (its value is not modelled)
  /// or the `*` marker, which the parser turns into infinity.
  datatype Value = Num(token: string) | Inf

  /// One match-state row: `r[k]` is the value for residue `Alphabet[k]`.
  type Record = seq<Value>

  /// The order of the emission columns (`header1`).
  const Alphabet: string := "ACDEFGHIKLMNPQRSTVWY"

  /* ---------- text primitives: str.split, prefixes, substrings, int() ---------- */

  /// The characters `str.split()` treats as separators: the controls 9-13
  /// and 28-31, the space, and the Unicode spaces Python counts as whitespace.
  predicate IsSpace(c: char) {
    var n := c as int;
    || 9 <= n <= 13 || 28 <= n <= 32 || n == 0x85 || n == 0xA0 || n == 0x1680
    || 0x2000 <= n <= 0x200A || n == 0x2028 || n == 0x2029 || n == 0x202F
    || n == 0x205F || n == 0x3000
  }

  predicate IsToken(t: string) {
    |t| > 0 && forall k :: 0 <= k < |t| ==> !IsSpace(t[k])
  }

  predicate AllSpaces(s: string) {
    forall k :: 0 <= k < |s| ==> IsSpace(s[k])
  }

  /// Length of the run of non-separators at the front of `s`.
  function TokenLength(s: string): (n: nat)
    ensures n <= |s|
    ensures forall k :: 0 <= k < n ==> !IsSpace(s[k])
    ensures n < |s| ==> IsSpace(s[n])
  {
    if |s| == 0 || IsSpace(s[0]) then 0 else 1 + TokenLength(s[1..])
  }

  /// `s.split()`: the maximal runs of non-separators, in order.
  function Split(s: string): (ts: seq<string>)
    ensures forall k :: 0 <= k < |ts| ==> IsToken(ts[k])
    decreases |s|
  {
    if |s| == 0 then []
    else if IsSpace(s[0]) then Split(s[1..])
    else
      var n := TokenLength(s);
      [s[..n]] + Split(s[n..])
  }

  /// Leading separators do not change the split.
  lemma {:induction false} SplitSkipsSpaces(ws: string, s: string)
    requires AllSpaces(ws)
    ensures Split(ws + s) == Split(s)
    decreases |ws|
  {
    if |ws| > 0 {
      assert IsSpace((ws + s)[0]);
      assert Split(ws + s) == Split((ws + s)[1..]);
      assert (ws + s)[1..] == ws[1..] + s;
      SplitSkipsSpaces(ws[1..], s);
    } else {
      assert ws + s == s;
    }
  }

  lemma {:induction false} TokenLengthOfToken(t: string, rest: string)
    requires IsToken(t)
    requires |rest| == 0 || IsSpace(rest[0])
    ensures TokenLength(t + rest) == |t|
    decreases |t|
  {
    if |t| > 1 {
      assert (t + rest)[1..] == t[1..] + rest;
      TokenLengthOfToken(t[1..], rest);
    } else {
      assert (t + rest)[1..] == rest;
    }
  }

  /// A token followed by a separator (or the end) splits off as one field.
  lemma SplitToken(t: string, rest: string)
    requires IsToken(t)
    requires |rest| == 0 || IsSpace(rest[0])
    ensures Split(t + rest) == [t] + Split(rest)
  {
    TokenLengthOfToken(t, rest);
    assert (t + rest)[..|t|] == t;
    assert (t + rest)[|t|..] == rest;
  }

  /// A last field followed only by separators splits to itself alone.
  lemma SplitLastField(b: string, tail: string)
    requires IsToken(b) && AllSpaces(tail)
    ensures Split(b + tail) == [b]
  {
    SplitToken(b, tail);
    SplitSkipsSpaces(tail, []);
    assert tail + [] == tail;
  }

  /// The split of `a`, then separators, then `b` and trailing separators.
  lemma SplitGrouped(a: string, sep: string, b: string, tail: string)
    requires IsToken(a) && IsToken(b)
    requires |sep| > 0 && AllSpaces(sep) && AllSpaces(tail)
    ensures Split(a + (sep + (b + tail))) == [a, b]
  {
    var bt := b + tail;
    var rest := sep + bt;
    calc {
      Split(a + rest);
      == { assert IsSpace(rest[0]); SplitToken(a, rest); }
      [a] + Split(rest);
      == { SplitSkipsSpaces(sep, bt); }
      [a] + Split(bt);
      == { SplitLastField(b, tail); }
      [a] + [b];
    }
  }

  /// A line made of two fields, a separator between them and trailing
  /// separators (the newline `readlines` keeps) splits into those two fields.
  lemma SplitTwoFields(a: string, sep: string, b: string, tail: string)
    requires IsToken(a) && IsToken(b)
    requires |sep| > 0 && AllSpaces(sep) && AllSpaces(tail)
    ensures Split(a + sep + b + tail) == [a, b]
  {
    Regroup(a, sep, b, tail);
    SplitGrouped(a, sep, b, tail);
  }

  /// Concatenation of four strings, grouped from the right.
  lemma Regroup(a: string, sep: string, b: string, tail: string)
    ensures a + sep + b + tail == a + (sep + (b + tail))
  {
  }

  /// `line[0:|p|] == p`.
  predicate StartsWith(line: string, p: string) {
    |line| >= |p| && line[..|p|] == p
  }

  predicate EndsWith(s: string, p: string) {
    |s| >= |p| && s[|s| - |p|..] == p
  }

  predicate OccursAt(line: string, sub: string, k: nat)
    requires k + |sub| <= |line|
  {
    line[k..k + |sub|] == sub
  }

  /// `sub in line`.
  predicate Contains(line: string, sub: string) {
    exists k: nat :: k + |sub| <= |line| && OccursAt(line, sub, k)
  }

  /// `name[:-3]` when the name ends in the first-iteration suffix `-i1`.
  function StripIterSuffix(name: string): (r: string)
    ensures EndsWith(name, "-i1") ==> name == r + "-i1"
    ensures !EndsWith(name, "-i1") ==> r == name
  {
    if EndsWith(name, "-i1") then name[..|name| - 3] else name
  }

  predicate IsDigit(c: char) {
    '0' <= c <= '9'
  }

  predicate AllDigits(s: string) {
    forall k :: 0 <= k < |s| ==> IsDigit(s[k])
  }

  predicate DigitsOrUnderscores(s: string) {
    forall k :: 0 <= k < |s| ==> IsDigit(s[k]) || s[k] == '_'
  }

  /// A group of digits as Python's numerals allow it: it starts and ends
  /// with a digit, and an underscore may stand only between two digits
  /// (`1_000`).
  predicate IsDigitPart(s: string) {
    && |s| > 0 && IsDigit(s[0]) && IsDigit(s[|s| - 1])
    && DigitsOrUnderscores(s)
    && (forall k :: 0 <= k < |s| - 1 && s[k] == '_' ==> IsDigit(s[k + 1]))
  }

  /// The token without its leading sign, if it has one.
  function Unsigned(tok: string): (r: string)
    ensures |r| <= |tok|
  {
    if |tok| > 0 && (tok[0] == '+' || tok[0] == '-') then tok[1..] else tok
  }

  /// Decimal value of a string of digits, read left to right; underscores
  /// are skipped.
  function DigitsValue(s: string): nat
    requires DigitsOrUnderscores(s)
  {
    if |s| == 0 then 0
    else if s[|s| - 1] == '_' then DigitsValue(s[..|s| - 1])
    else DigitsValue(s[..|s| - 1]) * 10 + (s[|s| - 1] as int - '0' as int)
  }

  /// `int(token)` for an optionally signed decimal numeral; `None` where
  /// Python raises `ValueError`.
  function ParseInt(tok: string): Option<int> {
    var b := Unsigned(tok);
    if IsDigitPart(b) then
      var v: int := DigitsValue(b);
      Some(if tok[0] == '-' then -v else v)
    else
      None
  }

  /// The decimal numeral of `n`, as HMMER writes the `LENG` field.
  function DecimalString(n: nat): (s: string)
    ensures IsToken(s) && AllDigits(s)
  {
    var d := [(('0' as int) + n % 10) as char];
    if n < 10 then d else DecimalString(n / 10) + d
  }

  /// Reading back a numeral gives the number written.
  lemma {:induction false} ParseIntRoundTrip(n: nat)
    ensures ParseInt(DecimalString(n)) == Some(n)
    ensures DigitsValue(DecimalString(n)) == n
    decreases n
  {
    var s := DecimalString(n);
    assert Unsigned(s) == s by { assert IsDigit(s[0]); }
    if n >= 10 {
      ParseIntRoundTrip(n / 10);
      assert s[..|s| - 1] == DecimalString(n / 10);
    } else {
      assert s[..|s| - 1] == [];
      assert s[0] as int - '0' as int == n;
      assert DigitsValue(s) == n;
    }
  }

  /// `c.lower()` on ASCII letters.
  function LowerChar(c: char): char {
    if 'A' <= c <= 'Z' then (c as int + 32) as char else c
  }

  /// `s.lower() == word`, for a lower-case `word`.
  predicate SameIgnoringCase(s: string, word: string) {
    |s| == |word| && forall k :: 0 <= k < |s| ==> LowerChar(s[k]) == word[k]
  }

  /// Where a reader of a decimal float stands after a prefix of it: in the
  /// integer digits, after a point, in the fraction, in the exponent, and
  /// whether the last character was an underscore or a sign.
  datatype FloatPos =
    | Begin | IntDigit | IntUnder | LonePoint | Point | FracDigit | FracUnder
    | ExpMark | ExpSign | ExpDigit | ExpUnder

  /// The prefix read so far is a whole float: digits, with or without a
  /// point and a fraction, or with an exponent.
  predicate Complete(q: FloatPos) {
    q == IntDigit || q == Point || q == FracDigit || q == ExpDigit
  }

  /// The position after one more character, `None` where `float()` refuses
  /// it. An underscore must stand between two digits.
  function NextPos(q: FloatPos, c: char): Option<FloatPos> {
    var digit := IsDigit(c);
    var exp := c == 'e' || c == 'E';
    match q
    case Begin => if digit then Some(IntDigit) else if c == '.' then Some(LonePoint) else None
    case IntDigit =>
      if digit then Some(IntDigit) else if c == '_' then Some(IntUnder)
      else if c == '.' then Some(Point) else if exp then Some(ExpMark) else None
    case IntUnder => if digit then Some(IntDigit) else None
    case LonePoint => if digit then Some(FracDigit) else None
    case Point => if digit then Some(FracDigit) else if exp then Some(ExpMark) else None
    case FracDigit =>
      if digit then Some(FracDigit) else if c == '_' then Some(FracUnder)
      else if exp then Some(ExpMark) else None
    case FracUnder => if digit then Some(FracDigit) else None
    case ExpMark => if digit then Some(ExpDigit) else if c == '+' || c == '-' then Some(ExpSign) else None
    case ExpSign => if digit then Some(ExpDigit) else None
    case ExpDigit => if digit then Some(ExpDigit) else if c == '_' then Some(ExpUnder) else None
    case ExpUnder => if digit then Some(ExpDigit) else None
  }

  /// Reading `s` from position `q` ends on a whole float.
  predicate ReadsFloat(q: FloatPos, s: string)
    decreases |s|
  {
    if |s| == 0 then Complete(q)
    else match NextPos(q, s[0])
      case None => false
      case Some(q') => ReadsFloat(q', s[1..])
  }

  /// A token that `float()` reads: an optional sign, then a decimal float
  /// (`1`, `1.`, `.5`, `1.5e-3`, digit groups as `1_000`) or one of the words
  /// `inf`, `infinity` and `nan` in any case.
  predicate IsFloatLiteral(tok: string) {
    var b := Unsigned(tok);
    || ReadsFloat(Begin, b)
    || SameIgnoringCase(b, "inf") || SameIgnoringCase(b, "infinity") || SameIgnoringCase(b, "nan")
  }

  /// The rest of a digit group, read inside the integer digits, is read
  /// to the end.
  lemma {:induction false} DigitGroupReads(s: string)
    requires DigitsOrUnderscores(s)
    requires |s| > 0 ==> IsDigit(s[|s| - 1])
    requires forall k :: 0 <= k < |s| - 1 && s[k] == '_' ==> IsDigit(s[k + 1])
    ensures ReadsFloat(IntDigit, s)
    decreases |s|
  {
    if |s| > 0 {
      if IsDigit(s[0]) {
        DigitGroupReads(s[1..]);
      } else {
        assert s[0] == '_' && |s| > 1 && IsDigit(s[1]);
        DigitGroupReads(s[2..]);
        assert s[1..][1..] == s[2..];
      }
    }
  }

  /// Every numeral `int()` reads, `float()` reads too.
  lemma IntIsFloat(tok: string)
    requires ParseInt(tok).Some?
    ensures IsFloatLiteral(tok)
  {
    var b := Unsigned(tok);
    DigitGroupReads(b[1..]);
  }

  /// `float()` reads a value as HMMER prints it.
  lemma FloatAcceptsPoint()
    ensures IsFloatLiteral("2.68563")
  {
  }

  /// `float()` reads a signed exponent form with a digit group.
  lemma FloatAcceptsExponent()
    ensures IsFloatLiteral("-1_0e-3")
  {
  }

  /// `float()` reads the infinity word in any case.
  lemma FloatAcceptsInf()
    ensures IsFloatLiteral("Inf")
  {
    assert SameIgnoringCase("Inf", "inf");
  }

  /// `float()` refuses a lone point, doubled underscores, an underscore next
  /// to the point and an exponent without digits.
  lemma FloatRefuses()
    ensures !IsFloatLiteral(".") && !IsFloatLiteral("1__0") && !IsFloatLiteral("1_.5")
    ensures !IsFloatLiteral("1e") && !IsFloatLiteral("x")
  {
  }

  /* ---------- the line-driven state machine ---------- */

  /// Why a line ended the parse. Every one of these leaves the function
  /// through its bare `except:` as the same generic exception; the fault
  /// records what went wrong inside.
  datatype Fault =
    | MissingField   // `line.split()[1]` on a one-field line (IndexError)
    | BadInteger     // `int(...)` on a LENG value that is not a numeral (ValueError)
    | NoName         // `name` used before any NAME line (NameError)
    | NoCompo        // a body row before the COMPO line of its protein
    | NoLength       // a body row while `length` is 0
    | BadFloat       // `float(...)` on a stored field that is not a number (ValueError)

  /// The outcome the caller sees: `FileNotFoundError` for a missing file,
  /// the generic exception for everything else.
  datatype ParseError = NotFound | Failed(fault: Fault)

  /// The loop's variables: the result map, the current protein, the first
  /// match-row index of its body, whether COMPO was seen, and the length.
  datatype State = State(
    hmm: map<string, seq<Record>>,
    name: Option<string>,
    start: int,
    hascomp: bool,
    length: int)
  {
    ghost predicate Inv() {
      name.Some? ==> name.value in hmm
    }
  }

  const Init: State := State(map[], None, 0, false, 0)

  /// A field `float()` reads once `*` has become `inf`.
  predicate IsField(tok: string) {
    tok == "*" || IsFloatLiteral(tok)
  }

  /// Field `*` is infinity; any other field is kept as its text.
  function ToValue(tok: string): (v: Value)
    ensures v.Inf? <==> tok == "*"
    ensures v.Num? ==> v.token == tok
  {
    if tok == "*" then Inf else Num(tok)
  }

  /// The row stored for a split body line: fields 1 to 20 (`l[1:21]`), one
  /// per residue of `Alphabet`, in column order.
  function RecordOf(toks: seq<string>): (r: Record)
    requires |toks| > 3
    ensures |r| == (if |toks| > 21 then 20 else |toks| - 1)
    ensures 3 <= |r| <= |Alphabet|
    ensures forall k :: 0 <= k < |r| ==> r[k] == ToValue(toks[k + 1])
  {
    var fields := Fields(toks);
    seq(|fields|, k requires 0 <= k < |fields| => ToValue(fields[k]))
  }

  /// `l[1:21]`.
  function Fields(toks: seq<string>): (fs: seq<string>)
    requires |toks| > 3
    ensures |fs| == (if |toks| > 21 then 20 else |toks| - 1)
    ensures forall k :: 0 <= k < |fs| ==> fs[k] == toks[k + 1]
  {
    if |toks| > 21 then toks[1..21] else toks[1..]
  }

  /// Every field of `l[1:21]` is a number `float()` reads.
  predicate AllFields(toks: seq<string>)
    requires |toks| > 3
  {
    forall k :: 0 <= k < |Fields(toks)| ==> IsField(Fields(toks)[k])
  }

  /// The inner loop over `l[1:21]`: each field in turn goes through
  /// `float()`, and the first one it refuses raises.
  method ReadRow(toks: seq<string>) returns (r: Option<Record>)
    requires |toks| > 3
    ensures r.Some? <==> AllFields(toks)
    ensures r.Some? ==> r.value == RecordOf(toks)
  {
    var fields := Fields(toks);
    var row: Record := [];
    var k := 0;
    while k < |fields|
      invariant 0 <= k <= |fields|
      invariant forall m :: 0 <= m < k ==> IsField(fields[m])
      invariant |row| == k && forall m :: 0 <= m < k ==> row[m] == ToValue(fields[m])
    {
      if !IsField(fields[k]) {
        assert !AllFields(toks);
        return None;
      }
      row := row + [ToValue(fields[k])];
      k := k + 1;
    }
    assert AllFields(toks);
    assert row == RecordOf(toks);
    return Some(row);
  }

  /// Line `i` lies in the current protein's body window.
  predicate InBody(st: State, i: int) {
    st.start > 0 && i >= st.start && i <= 3 * (st.start + st.length)
  }

  /// A line that one of the four keyword branches claims.
  predicate IsKeywordLine(line: string) {
    StartsWith(line, "NAME") || StartsWith(line, "LENG") || StartsWith(line, "HMM") || Contains(line, "COMPO")
  }

  /// A body line that is stored: it lies in the body window, COMPO was
  /// seen, the length is set, it has more than three fields and it is a
  /// match row (every third row from `start`).
  predicate Kept(st: State, i: int, line: string) {
    !IsKeywordLine(line) && InBody(st, i) && st.hascomp && st.length != 0 &&
    |Split(line)| > 3 && (i - st.start) % 3 == 0
  }

  /// One iteration of the loop, on line `i`.
  function Step(st: State, i: nat, line: string): (r: Result<State, Fault>)
    requires st.Inv()
    ensures r.Ok? ==> r.value.Inv()
  {
    if StartsWith(line, "NAME") then
      var toks := Split(line);
      if |toks| < 2 then Err(MissingField)
      else
        var n := StripIterSuffix(toks[1]);
        Ok(st.(hmm := st.hmm[n := []], name := Some(n), start := 0, hascomp := false))
    else if StartsWith(line, "LENG") then
      var toks := Split(line);
      if |toks| < 2 then Err(MissingField)
      else if ParseInt(toks[1]).None? then Err(BadInteger)
      else Ok(st.(length := ParseInt(toks[1]).value))
    else if StartsWith(line, "HMM") then
      Ok(st.(start := i + 5))
    else if Contains(line, "COMPO") then
      Ok(st.(hascomp := true))
    else if InBody(st, i) then
      if !st.hascomp then Err(if st.name.None? then NoName else NoCompo)
      else if st.length == 0 then Err(if st.name.None? then NoName else NoLength)
      else
        var toks := Split(line);
        if |toks| > 3 && (i - st.start) % 3 == 0 then
          if st.name.None? then Err(NoName)
          else if !AllFields(toks) then Err(BadFloat)
          else
            var n := st.name.value;
            Ok(st.(hmm := st.hmm[n := st.hmm[n] + [RecordOf(toks)]]))
        else Ok(st)
    else
      Ok(st)
  }

  /// The state after the first `n` lines, or the fault that stopped the loop.
  function Run(lines: seq<string>, n: nat): (r: Result<State, Fault>)
    requires n <= |lines|
    ensures r.Ok? ==> r.value.Inv()
  {
    if n == 0 then Ok(Init)
    else match Run(lines, n - 1)
      case Err(f) => Err(f)
      case Ok(st) => Step(st, n - 1, lines[n - 1])
  }

  /// What `parse_hmm_multiprot` returns or raises for a file, `None` being a
  /// file that does not exist.
  function Parse(file: Option<seq<string>>): Result<map<string, seq<Record>>, ParseError> {
    match file
    case None => Err(NotFound)
    case Some(lines) =>
      match Run(lines, |lines|)
      case Err(f) => Err(Failed(f))
      case Ok(st) => Ok(st.hmm)
  }

  /// A fault ends the parse: once the loop has failed, later lines change nothing.
  lemma {:induction false} FaultPersists(lines: seq<string>, k: nat, n: nat, f: Fault)
    requires k <= n <= |lines|
    requires Run(lines, k) == Err(f)
    ensures Run(lines, n) == Err(f)
    decreases n
  {
    if n > k {
      FaultPersists(lines, k, n - 1, f);
    }
  }

  /// The loop of `parse_hmm_multiprot`, over the lines of the file.
  method ParseHmmMultiprot(file: Option<seq<string>>) returns (r: Result<map<string, seq<Record>>, ParseError>)
    ensures r == Parse(file)
  {
    if file.None? {
      return Err(NotFound);
    }
    var lines := file.value;
    var hmm: map<string, seq<Record>> := map[];
    var name: Option<string> := None;
    var start, hascomp, length := 0, false, 0;
    var i := 0;
    while i < |lines|
      invariant 0 <= i <= |lines|
      invariant Run(lines, i) == Ok(State(hmm, name, start, hascomp, length))
    {
      var next, fault := ParseLine(State(hmm, name, start, hascomp, length), i, lines[i]);
      if fault.Some? {
        FaultPersists(lines, i + 1, |lines|, fault.value);
        return Err(Failed(fault.value));
      }
      hmm, name, start, hascomp, length := next.hmm, next.name, next.start, next.hascomp, next.length;
      i := i + 1;
    }
    return Ok(hmm);
  }

  /// The body of the loop for line `i`: the loop's variables afterwards, or
  /// the fault the line raises.
  method ParseLine(st: State, i: nat, line: string) returns (next: State, fault: Option<Fault>)
    requires st.Inv()
    ensures fault.None? ==> Step(st, i, line) == Ok(next)
    ensures fault.Some? ==> Step(st, i, line) == Err(fault.value)
  {
    var hmm, name, start, hascomp, length := st.hmm, st.name, st.start, st.hascomp, st.length;
    fault := None;
    if StartsWith(line, "NAME") {
      var toks := Split(line);
      if |toks| < 2 {
        fault := Some(MissingField);
      } else {
        var n := StripIterSuffix(toks[1]);
        hmm := hmm[n := []];
        name := Some(n);
        start := 0;
        hascomp := false;
      }
    } else if StartsWith(line, "LENG") {
      var toks := Split(line);
      if |toks| < 2 {
        fault := Some(MissingField);
      } else {
        var v := ParseInt(toks[1]);
        if v.None? {
          fault := Some(BadInteger);
        } else {
          length := v.value;
        }
      }
    } else if StartsWith(line, "HMM") {
      start := i + 5;
    } else if Contains(line, "COMPO") {
      hascomp := true;
    } else if start > 0 && i >= start && i <= 3 * (start + length) {
      if !hascomp {
        fault := Some(if name.None? then NoName else NoCompo);
      } else if length == 0 {
        fault := Some(if name.None? then NoName else NoLength);
      } else {
        var toks := Split(line);
        if |toks| > 3 {
          if (i - start) % 3 == 0 {
            if name.None? {
              fault := Some(NoName);
            } else {
              var row := ReadRow(toks);
              if row.None? {
                fault := Some(BadFloat);
              } else {
                hmm := hmm[name.value := hmm[name.value] + [row.value]];
              }
            }
          }
        }
      }
    }
    next := State(hmm, name, start, hascomp, length);
  }

  /* ---------- properties of single steps ---------- */

  /// A NAME line names the protein after dropping `-i1`, empties that
  /// protein's rows (so a repeated name keeps only its last block), clears
  /// `start` and `hascomp`, and leaves `length` as it was.
  lemma NameLineResets(st: State, i: nat, n: string, sep: string, tail: string)
    requires st.Inv()
    requires IsToken(n) && |sep| > 0 && AllSpaces(sep) && AllSpaces(tail)
    ensures Step(st, i, "NAME" + sep + n + tail) ==
      Ok(State(st.hmm[StripIterSuffix(n) := []], Some(StripIterSuffix(n)), 0, false, st.length))
    ensures EndsWith(n, "-i1") ==> n == StripIterSuffix(n) + "-i1"
  {
    SplitTwoFields("NAME", sep, n, tail);
    var line := "NAME" + sep + n + tail;
    assert line[..4] == "NAME";
  }

  /// A LENG line sets `length` to the number it carries and nothing else.
  lemma LengLineSetsLength(st: State, i: nat, n: nat, sep: string, tail: string)
    requires st.Inv()
    requires |sep| > 0 && AllSpaces(sep) && AllSpaces(tail)
    ensures Step(st, i, "LENG" + sep + DecimalString(n) + tail) == Ok(st.(length := n))
  {
    var line := "LENG" + sep + DecimalString(n) + tail;
    SplitTwoFields("LENG", sep, DecimalString(n), tail);
    ParseIntRoundTrip(n);
    assert line[..4] == "LENG";
    assert !StartsWith(line, "NAME") by { assert line[0] == 'L'; }
  }

  /// The `HMM` header at line `i` puts the first match row at line `i + 5`.
  lemma HeaderLineSetsStart(st: State, i: nat, rest: string)
    requires st.Inv()
    ensures Step(st, i, "HMM" + rest) == Ok(st.(start := i + 5))
  {
    var line := "HMM" + rest;
    assert line[..3] == "HMM";
    assert !StartsWith(line, "NAME") && !StartsWith(line, "LENG") by { assert line[0] == 'H'; }
  }

  /// A COMPO line sets `hascomp` and nothing else.
  lemma CompoLineSetsHascomp(st: State, i: nat, line: string)
    requires st.Inv()
    requires Contains(line, "COMPO")
    requires !StartsWith(line, "NAME") && !StartsWith(line, "LENG") && !StartsWith(line, "HMM")
    ensures Step(st, i, line) == Ok(st.(hascomp := true))
  {
  }

  /// A body row reached before the protein's COMPO line, or while the length
  /// is still 0, raises.
  lemma BodyRowFaults(st: State, i: nat, line: string)
    requires st.Inv()
    requires !IsKeywordLine(line) && InBody(st, i)
    requires !st.hascomp || st.length == 0
    ensures Step(st, i, line).Err?
  {
  }

  /// Any other line stores a row exactly when it is `Kept`, and the row is
  /// appended to the current protein; no other line touches the rows.
  lemma {:induction false} BodyRowStored(st: State, i: nat, line: string)
    requires st.Inv()
    requires !IsKeywordLine(line)
    requires Step(st, i, line).Ok?
    ensures Kept(st, i, line) ==> (st.name.Some? &&
      Step(st, i, line).value.hmm == st.hmm[st.name.value := st.hmm[st.name.value] + [RecordOf(Split(line))]])
    ensures !Kept(st, i, line) ==> Step(st, i, line).value == st
    ensures Kept(st, i, line) ==> AllFields(Split(line))
  {
  }

  /// A match row of a named protein with a field `float()` refuses raises.
  lemma BadFieldFaults(st: State, i: nat, line: string, k: nat)
    requires st.Inv()
    requires Kept(st, i, line) && st.name.Some?
    requires k < |Fields(Split(line))| && !IsField(Fields(Split(line))[k])
    ensures Step(st, i, line) == Err(BadFloat)
  {
  }

  /* ---------- properties of whole parses ---------- */

  /// A match row with a field `float()` refuses makes the whole parse raise
  /// the generic exception.
  lemma BadFieldFailsParse(lines: seq<string>, n: nat, k: nat)
    requires n < |lines| && Run(lines, n).Ok?
    requires Kept(Run(lines, n).value, n, lines[n]) && Run(lines, n).value.name.Some?
    requires k < |Fields(Split(lines[n]))| && !IsField(Fields(Split(lines[n]))[k])
    ensures Parse(Some(lines)) == Err(Failed(BadFloat))
  {
    BadFieldFaults(Run(lines, n).value, n, lines[n], k);
    FaultPersists(lines, n + 1, |lines|, BadFloat);
  }

  /// A line naming protein `n`.
  predicate NamesProtein(line: string, n: string) {
    StartsWith(line, "NAME") && |Split(line)| >= 2 && StripIterSuffix(Split(line)[1]) == n
  }

  /// Line `j` contributed row `rec` to the protein that was current there.
  predicate StoredFrom(lines: seq<string>, j: nat, rec: Record)
    requires j < |lines|
  {
    |Split(lines[j])| > 3 && !IsKeywordLine(lines[j]) && rec == RecordOf(Split(lines[j]))
  }

  /// Some line strictly between `k` and `n` stored `rec`.
  predicate StoredBetween(lines: seq<string>, k: nat, n: nat, rec: Record)
    requires n <= |lines|
  {
    exists j: nat :: k < j < n && StoredFrom(lines, j, rec)
  }

  /// Line `k` is the last of the first `n` lines to name `p`, and every row
  /// in `rows` was stored from a line after it.
  predicate FromLastBlock(lines: seq<string>, n: nat, p: string, k: nat, rows: seq<Record>)
    requires n <= |lines|
  {
    && k < n
    && NamesProtein(lines[k], p)
    && (forall j :: k < j < n ==> !NamesProtein(lines[j], p))
    && (forall r :: 0 <= r < |rows| ==> StoredBetween(lines, k, n, rows[r]))
  }

  /// A line that does not name `p` keeps an earlier last-block witness valid.
  lemma FromLastBlockExtends(lines: seq<string>, n: nat, p: string, k: nat, rows: seq<Record>)
    requires 0 < n <= |lines|
    requires FromLastBlock(lines, n - 1, p, k, rows)
    requires !NamesProtein(lines[n - 1], p)
    ensures FromLastBlock(lines, n, p, k, rows)
  {
    forall r | 0 <= r < |rows|
      ensures StoredBetween(lines, k, n, rows[r])
    {
      assert StoredBetween(lines, k, n - 1, rows[r]);
      var j: nat :| k < j < n - 1 && StoredFrom(lines, j, rows[r]);
    }
  }

  /// A row stored by a line that does not name `p` joins the last block.
  lemma FromLastBlockAppends(lines: seq<string>, n: nat, p: string, k: nat, rows: seq<Record>, rec: Record)
    requires 0 < n <= |lines|
    requires FromLastBlock(lines, n - 1, p, k, rows)
    requires !NamesProtein(lines[n - 1], p)
    requires StoredFrom(lines, n - 1, rec)
    ensures FromLastBlock(lines, n, p, k, rows + [rec])
  {
    var rows' := rows + [rec];
    forall r | 0 <= r < |rows'|
      ensures StoredBetween(lines, k, n, rows'[r])
    {
      if r < |rows| {
        assert StoredBetween(lines, k, n - 1, rows[r]);
        var j: nat :| k < j < n - 1 && StoredFrom(lines, j, rows[r]);
        assert StoredFrom(lines, j, rows'[r]);
      } else {
        assert StoredFrom(lines, n - 1, rows'[r]);
      }
    }
  }

  /// Every protein in a parse result was introduced by a NAME line, and each
  /// of its rows is the record of a body line that comes after the LAST NAME
  /// line for it: a repeated name keeps only its final block.
  lemma {:induction false} RowsComeFromLastBlock(lines: seq<string>, n: nat, p: string)
    requires n <= |lines|
    requires Run(lines, n).Ok? && p in Run(lines, n).value.hmm
    ensures exists k :: FromLastBlock(lines, n, p, k, Run(lines, n).value.hmm[p])
    decreases n
  {
    assert n > 0;
    var st := Run(lines, n - 1).value;
    var st' := Run(lines, n).value;
    var line := lines[n - 1];
    if NamesProtein(line, p) {
      assert st'.hmm[p] == [];
      assert FromLastBlock(lines, n, p, n - 1, st'.hmm[p]);
    } else {
      assert p in st.hmm by {
        if StartsWith(line, "NAME") {
          assert st'.hmm == st.hmm[StripIterSuffix(Split(line)[1]) := []];
        }
      }
      RowsComeFromLastBlock(lines, n - 1, p);
      var k: nat :| FromLastBlock(lines, n - 1, p, k, st.hmm[p]);
      if StartsWith(line, "NAME") {
        assert st'.hmm[p] == st.hmm[p];
        FromLastBlockExtends(lines, n, p, k, st.hmm[p]);
      } else if !IsKeywordLine(line) && Kept(st, n - 1, line) && st.name.value == p {
        BodyRowStored(st, n - 1, line);
        assert st'.hmm[p] == st.hmm[p] + [RecordOf(Split(line))];
        FromLastBlockAppends(lines, n, p, k, st.hmm[p], RecordOf(Split(line)));
      } else if !IsKeywordLine(line) {
        BodyRowStored(st, n - 1, line);
        assert st'.hmm[p] == st.hmm[p];
        FromLastBlockExtends(lines, n, p, k, st.hmm[p]);
      } else {
        assert st'.hmm == st.hmm;
        FromLastBlockExtends(lines, n, p, k, st.hmm[p]);
      }
      assert FromLastBlock(lines, n, p, k, st'.hmm[p]);
    }
  }

  /// Every stored row has between 3 and 20 values, one per residue column,
  /// and none of them is the raw `*` marker.
  lemma {:induction false} RowsWellFormed(lines: seq<string>, n: nat)
    requires n <= |lines|
    requires Run(lines, n).Ok?
    ensures forall p, r :: p in Run(lines, n).value.hmm && 0 <= r < |Run(lines, n).value.hmm[p]| ==>
      3 <= |Run(lines, n).value.hmm[p][r]| <= |Alphabet| &&
      Num("*") !in Run(lines, n).value.hmm[p][r]
    decreases n
  {
    if n > 0 {
      RowsWellFormed(lines, n - 1);
      var st := Run(lines, n - 1).value;
      var line := lines[n - 1];
      if !IsKeywordLine(line) {
        BodyRowStored(st, n - 1, line);
        if Kept(st, n - 1, line) {
          var rec := RecordOf(Split(line));
          assert Num("*") !in rec by {
            forall k | 0 <= k < |rec| ensures rec[k] != Num("*") {
              assert rec[k] == ToValue(Split(line)[k + 1]);
            }
          }
        }
      }
    }
  }
}
