/** The DIMACS text that write_formula (FormulaConstructor.py) writes: a header
    `p cnf V C` and one line per clause, each literal followed by a space and
    the line closed by `0`. A parser for the same layout is its inverse. */
module Dimacs {
  import opened Common

  // ---------------------------------------------------------------------------
  // Decimal numerals (Python's str on int)

  predicate IsDigit(c: char) {
    '0' <= c <= '9'
  }

  function DigitChar(d: int): (c: char)
    requires 0 <= d < 10
    ensures IsDigit(c)
  {
    ('0' as int + d) as char
  }

  function DigitValue(c: char): (d: int)
    requires IsDigit(c)
    ensures 0 <= d < 10
  {
    c as int - '0' as int
  }

  /** `str(n)` for n >= 0. */
  function NatToString(n: nat): string
    decreases n
  {
    if n < 10 then [DigitChar(n)] else NatToString(n / 10) + [DigitChar(n % 10)]
  }

  /** `str(i)`: a minus sign before the digits of a negative number. */
  function IntToString(i: int): string {
    if i < 0 then "-" + NatToString(-i) else NatToString(i)
  }

  predicate AllDigits(s: string) {
    forall i :: 0 <= i < |s| ==> IsDigit(s[i])
  }

  /** The value of a non-empty string of digits. */
  function ParseDigits(s: string): nat
    requires |s| > 0 && AllDigits(s)
    decreases |s|
  {
    if |s| == 1 then DigitValue(s[0]) else ParseDigits(s[..|s| - 1]) * 10 + DigitValue(s[|s| - 1])
  }

  function ParseNat(s: string): Option<nat> {
    if |s| > 0 && AllDigits(s) then Some(ParseDigits(s)) else None
  }

  function ParseInt(s: string): Option<int> {
    if |s| > 1 && s[0] == '-' then
      match ParseNat(s[1..])
      case Some(n) => Some(-(n as int))
      case None => None
    else
      match ParseNat(s)
      case Some(n) => Some(n)
      case None => None
  }

  lemma {:induction false} NatToStringDigits(n: nat)
    ensures |NatToString(n)| > 0 && AllDigits(NatToString(n))
    ensures ParseDigits(NatToString(n)) == n
    decreases n
  {
    if n >= 10 {
      NatToStringDigits(n / 10);
      var s := NatToString(n / 10);
      var t := s + [DigitChar(n % 10)];
      assert t[..|t| - 1] == s;
    }
  }

  /** Printing a number and parsing it back gives the number. */
  lemma IntToStringRoundTrip(i: int)
    ensures ParseInt(IntToString(i)) == Some(i)
    ensures |IntToString(i)| > 0
    ensures forall j :: 0 <= j < |IntToString(i)| ==> IntToString(i)[j] != ' ' && IntToString(i)[j] != '\n'
  {
    if i < 0 {
      NatToStringDigits(-i);
      assert IntToString(i)[1..] == NatToString(-i);
    } else {
      NatToStringDigits(i);
    }
  }

  // ---------------------------------------------------------------------------
  // Lines

  /** `for entry in item: f.write(str(entry) + " ")` followed by `f.write("0\n")`. */
  function ClauseLine(clause: Clause): string
    decreases |clause|
  {
    if clause == [] then "0\n" else IntToString(clause[0]) + " " + ClauseLine(clause[1..])
  }

  function Lines(formula: seq<Clause>): string
    decreases |formula|
  {
    if formula == [] then "" else ClauseLine(formula[0]) + Lines(formula[1..])
  }

  /** The literals of a clause line, each followed by a space, before the closing "0\n". */
  function Entries(clause: Clause): string
    decreases |clause|
  {
    if clause == [] then "" else IntToString(clause[0]) + " " + Entries(clause[1..])
  }

  lemma {:induction false} ClauseLineIsEntries(clause: Clause)
    ensures ClauseLine(clause) == Entries(clause) + "0\n"
    decreases |clause|
  {
    if clause != [] {
      ClauseLineIsEntries(clause[1..]);
    }
  }

  /** Writing one more literal extends the entries at their end. */
  lemma {:induction false} EntriesAppend(clause: Clause, lit: int)
    ensures Entries(clause + [lit]) == Entries(clause) + IntToString(lit) + " "
    decreases |clause|
  {
    if clause == [] {
      assert clause + [lit] == [lit];
      assert [lit][1..] == [];
    } else {
      assert (clause + [lit])[1..] == clause[1..] + [lit];
      EntriesAppend(clause[1..], lit);
      var h, e, l := IntToString(clause[0]) + " ", Entries(clause[1..]), IntToString(lit) + " ";
      assert Entries(clause + [lit]) == h + (e + l);
      AppendAssoc(h, e, l);
    }
  }

  /** Writing one more clause extends the lines at their end. */
  lemma {:induction false} LinesAppend(formula: seq<Clause>, clause: Clause)
    ensures Lines(formula + [clause]) == Lines(formula) + ClauseLine(clause)
    decreases |formula|
  {
    if formula == [] {
      assert formula + [clause] == [clause];
      assert [clause][1..] == [];
    } else {
      assert (formula + [clause])[1..] == formula[1..] + [clause];
      LinesAppend(formula[1..], clause);
    }
  }

  /** `"p cnf " + str(max_var) + " " + str(len(formula)) + "\n"`. */
  function Header(maxVar: nat, clauseCount: nat): string {
    "p cnf " + NatToString(maxVar) + " " + NatToString(clauseCount) + "\n"
  }

  function Abs(i: int): nat {
    if i < 0 then -i else i
  }

  /** `max([abs(v) for v in clause])`. */
  function ClauseMaxAbs(clause: Clause): (r: nat)
    requires clause != []
    ensures forall j :: 0 <= j < |clause| ==> Abs(clause[j]) <= r
    ensures exists j :: 0 <= j < |clause| && Abs(clause[j]) == r
    decreases |clause|
  {
    if |clause| == 1 then Abs(clause[0])
    else
      var m := ClauseMaxAbs(clause[..|clause| - 1]);
      if Abs(clause[|clause| - 1]) > m then Abs(clause[|clause| - 1]) else m
  }

  predicate NoEmptyClause(formula: seq<Clause>) {
    forall i :: 0 <= i < |formula| ==> formula[i] != []
  }

  function FormulaMaxAbs(formula: seq<Clause>): (r: nat)
    requires formula != [] && NoEmptyClause(formula)
    ensures forall i, j :: 0 <= i < |formula| && 0 <= j < |formula[i]| ==> Abs(formula[i][j]) <= r
    ensures exists i, j :: 0 <= i < |formula| && 0 <= j < |formula[i]| && Abs(formula[i][j]) == r
    decreases |formula|
  {
    var last := ClauseMaxAbs(formula[|formula| - 1]);
    if |formula| == 1 then last
    else
      var m := FormulaMaxAbs(formula[..|formula| - 1]);
      if last > m then last else m
  }

  /** `max([max([abs(v) for v in c]) for c in formula])`; Python's max raises
      on an empty formula or an empty clause, which gives None. */
  function MaxAbsLiteral(formula: seq<Clause>): (r: Option<nat>)
    ensures r.None? <==> formula == [] || exists i :: 0 <= i < |formula| && formula[i] == []
    ensures r.Some? ==>
              (forall i, j :: 0 <= i < |formula| && 0 <= j < |formula[i]| ==> Abs(formula[i][j]) <= r.value) &&
              (exists i, j :: 0 <= i < |formula| && 0 <= j < |formula[i]| && Abs(formula[i][j]) == r.value)
  {
    if formula == [] || !NoEmptyClause(formula) then None else Some(FormulaMaxAbs(formula))
  }

  /** The whole file; None where the source's max fails. */
  function DimacsText(formula: seq<Clause>): Option<string> {
    match MaxAbsLiteral(formula)
    case Some(v) => Some(Header(v, |formula|) + Lines(formula))
    case None => None
  }

  // ---------------------------------------------------------------------------
  // Reading the layout back

  /** The first position of c in s, or |s|. */
  function FirstIndexOf(s: string, c: char): (r: nat)
    ensures r <= |s| && (r < |s| ==> s[r] == c) && forall j :: 0 <= j < r ==> s[j] != c
    decreases |s|
  {
    if s == [] then 0 else if s[0] == c then 0 else 1 + FirstIndexOf(s[1..], c)
  }

  lemma {:induction false} FirstIndexOfAppend(a: string, b: string, c: char)
    requires forall j :: 0 <= j < |a| ==> a[j] != c
    ensures FirstIndexOf(a + b, c) == |a| + FirstIndexOf(b, c)
    decreases |a|
  {
    if a != [] {
      assert (a + b)[0] == a[0] != c;
      assert (a + b)[1..] == a[1..] + b;
      assert FirstIndexOf(a + b, c) == 1 + FirstIndexOf(a[1..] + b, c);
      assert forall j :: 0 <= j < |a[1..]| ==> a[1..][j] == a[j + 1];
      FirstIndexOfAppend(a[1..], b, c);
    } else {
      assert a + b == b;
    }
  }

  /** Splitting `a + [c] + b` at its first c gives back a and b. */
  lemma SplitAtFirst(a: string, b: string, c: char)
    requires forall j :: 0 <= j < |a| ==> a[j] != c
    ensures FirstIndexOf(a + [c] + b, c) == |a|
    ensures (a + [c] + b)[..|a|] == a && (a + [c] + b)[|a| + 1..] == b
  {
    FirstIndexOfAppend(a, [c] + b, c);
    assert a + [c] + b == a + ([c] + b);
  }

  /** One clause line: literals, each followed by a space, then "0\n". */
  function ParseClauseLine(s: string): Option<Clause>
    decreases |s|
  {
    if s == "0\n" then Some([])
    else
      var k := FirstIndexOf(s, ' ');
      if k == |s| then None
      else
        match ParseInt(s[..k])
        case None => None
        case Some(lit) =>
          if lit == 0 then None
          else
            match ParseClauseLine(s[k + 1..])
            case None => None
            case Some(rest) => Some([lit] + rest)
  }

  /** A sequence of clause lines, each ending at its first newline. */
  function ParseLines(s: string): Option<seq<Clause>>
    decreases |s|
  {
    if s == "" then Some([])
    else
      var k := FirstIndexOf(s, '\n');
      if k == |s| then None
      else
        match ParseClauseLine(s[..k + 1])
        case None => None
        case Some(clause) =>
          match ParseLines(s[k + 1..])
          case None => None
          case Some(rest) => Some([clause] + rest)
  }

  /** The header line and the clause lines: (V, C, clauses). */
  function ParseDimacs(s: string): Option<(nat, nat, seq<Clause>)> {
    var k := FirstIndexOf(s, '\n');
    if k == |s| || k < 6 || s[..6] != "p cnf " then None
    else
      var numbers := s[6..k];
      var sp := FirstIndexOf(numbers, ' ');
      if sp == |numbers| then None
      else
        match (ParseNat(numbers[..sp]), ParseNat(numbers[sp + 1..]), ParseLines(s[k + 1..]))
        case (Some(v), Some(c), Some(clauses)) => Some((v, c, clauses))
        case _ => None
  }

  /** A clause line has its only newline at its end. */
  lemma {:induction false} ClauseLineShape(clause: Clause)
    ensures |ClauseLine(clause)| >= 2
    ensures ClauseLine(clause)[|ClauseLine(clause)| - 1] == '\n'
    ensures forall j :: 0 <= j < |ClauseLine(clause)| - 1 ==> ClauseLine(clause)[j] != '\n'
    decreases |clause|
  {
    if clause != [] {
      IntToStringRoundTrip(clause[0]);
      ClauseLineShape(clause[1..]);
      var a := IntToString(clause[0]) + " ";
      var b := ClauseLine(clause[1..]);
      assert ClauseLine(clause) == a + b;
      forall j | 0 <= j < |a + b| - 1 ensures (a + b)[j] != '\n' {
        if j < |a| {
          assert (a + b)[j] == a[j];
        } else {
          assert (a + b)[j] == b[j - |a|];
        }
      }
    }
  }

  /** A clause line of a non-empty clause is its first literal, a space, and
      the line of the rest. */
  lemma ClauseLineCons(clause: Clause)
    requires clause != []
    ensures ClauseLine(clause) == IntToString(clause[0]) + [' '] + ClauseLine(clause[1..])
    ensures ClauseLine(clause) != "0\n"
  {
    var t := IntToString(clause[0]);
    IntToStringRoundTrip(clause[0]);
    var s := ClauseLine(clause);
    assert s[|t|] == ' ';
    assert |s| != 2 || s[1] != '\n';
  }

  /** A clause without the literal 0 is read back from its line. */
  lemma {:induction false} ClauseLineRoundTrip(clause: Clause)
    requires forall i :: 0 <= i < |clause| ==> clause[i] != 0
    ensures ParseClauseLine(ClauseLine(clause)) == Some(clause)
    decreases |clause|
  {
    if clause != [] {
      var lit := clause[0];
      var t := IntToString(lit);
      var rest := ClauseLine(clause[1..]);
      IntToStringRoundTrip(lit);
      ClauseLineCons(clause);
      SplitAtFirst(t, rest, ' ');
      ClauseLineRoundTrip(clause[1..]);
      assert [lit] + clause[1..] == clause;
    }
  }

  /** The clause lines are read back as the formula. */
  lemma {:induction false} LinesRoundTrip(formula: seq<Clause>)
    requires forall i, j :: 0 <= i < |formula| && 0 <= j < |formula[i]| ==> formula[i][j] != 0
    ensures ParseLines(Lines(formula)) == Some(formula)
    decreases |formula|
  {
    if formula != [] {
      var line := ClauseLine(formula[0]);
      var rest := Lines(formula[1..]);
      ClauseLineShape(formula[0]);
      var n := |line| - 1;
      assert line == line[..n] + ['\n'];
      SplitAtFirst(line[..n], rest, '\n');
      assert Lines(formula) == line[..n] + ['\n'] + rest;
      ClauseLineRoundTrip(formula[0]);
      LinesRoundTrip(formula[1..]);
      assert [formula[0]] + formula[1..] == formula;
    }
  }

  /** The header numbers are read back from a text laid out as a header line
      followed by `body`. */
  lemma ParseHeader(v: nat, c: nat, body: string)
    ensures var s := Header(v, c) + body;
            var k := FirstIndexOf(s, '\n');
            k < |s| && k >= 6 && s[..6] == "p cnf " &&
            s[k + 1..] == body &&
            var numbers := s[6..k];
            var sp := FirstIndexOf(numbers, ' ');
            sp < |numbers| && ParseNat(numbers[..sp]) == Some(v) && ParseNat(numbers[sp + 1..]) == Some(c)
  {
    var sv, sc := NatToString(v), NatToString(c);
    NatToStringDigits(v);
    NatToStringDigits(c);
    var numbers := sv + [' '] + sc;
    var headLine := "p cnf " + numbers;
    var s := Header(v, c) + body;
    assert s == headLine + ['\n'] + body;
    assert forall j :: 0 <= j < |numbers| ==> numbers[j] != '\n';
    assert forall j :: 0 <= j < |headLine| ==> headLine[j] != '\n';
    SplitAtFirst(headLine, body, '\n');
    SplitAtFirst(sv, sc, ' ');
    assert s[6..|headLine|] == numbers;
  }

  /** The written file is read back as its header numbers and its formula. */
  lemma DimacsRoundTrip(formula: seq<Clause>)
    requires forall i, j :: 0 <= i < |formula| && 0 <= j < |formula[i]| ==> formula[i][j] != 0
    requires MaxAbsLiteral(formula).Some?
    ensures ParseDimacs(DimacsText(formula).value) == Some((MaxAbsLiteral(formula).value, |formula|, formula))
  {
    ParseHeader(MaxAbsLiteral(formula).value, |formula|, Lines(formula));
    LinesRoundTrip(formula);
  }
}
