/**
 * The DIMACS CNF reader `parseFile` (src/SATSolver.kt:123-160), with the
 * file given as its sequence of lines. Each line is handled by a function;
 * the line loop, which stops at the first exception and then checks the
 * declared clause count, is the method `ParseFile`.
 */
module Dimacs {
  import opened Wrappers
  import opened Text
  import opened Formula

  /** The reader's mutable locals `vars`, `numClauses` and `clauses`. */
  datatype ParseState = ParseState(vars: int, numClauses: int, clauses: seq<Clause>)

  /**
   * The state after one line: `Abort` when the line threw (the exception is
   * caught outside the loop, so no further line is read), with whatever the
   * line had already assigned.
   */
  datatype LineResult = Continue(st: ParseState) | Abort(st: ParseState)

  /** The exceptions that leave `parseFile`. */
  datatype ParseError =
    | ClauseCountMismatch(declared: int, found: nat)
    | NegativeVariableCount(vars: int)

  /** What `parseFile` hands to the solver's constructor. */
  datatype Problem = Problem(numVars: nat, clauses: seq<Clause>)

  const Initial := ParseState(0, 0, [])

  /** Kotlin's `index - 1` on `Int`, which wraps at the bottom of the range. */
  function Dec32(k: int): (r: int)
    requires IntMin <= k <= IntMax
    ensures IntMin <= r <= IntMax
    ensures k != IntMin ==> r == k - 1
  {
    if k == IntMin then IntMax else k - 1
  }

  /**
   * One token of a clause line: a leading `-` marks the literal negated and
   * is removed once, the rest is read with `toInt`. `None` means it threw,
   * `Some(None)` that it was `0` and skipped.
   */
  function ParseToken(token: string): (r: Option<Option<Literal>>)
    ensures var negated := |token| > 0 && token[0] == '-';
      && (r.Some? <==> ParseInt(if negated then token[1..] else token).Some?)
      && (r.Some? ==> (r.value.None? <==> ParseInt(if negated then token[1..] else token).value == 0))
      && (r.Some? && r.value.Some? ==> r.value.value.negated == negated)
      && (r.Some? && r.value.Some? ==> IntMin <= r.value.value.index <= IntMax)
  {
    var negated := |token| > 0 && token[0] == '-';
    var rest := if negated then token[1..] else token;
    match ParseInt(rest)
    case None => None
    case Some(index) =>
      if index == 0 then Some(None) else Some(Some(Literal(Dec32(index), negated)))
  }

  /** The `filter { it.isNotBlank() }` of a clause line. */
  function NonBlank(parts: seq<string>): (r: seq<string>)
    ensures |r| <= |parts|
  {
    if parts == [] then []
    else NonBlank(parts[..|parts| - 1])
         + (if IsBlank(parts[|parts| - 1]) then [] else [parts[|parts| - 1]])
  }

  /** The literals of a clause line's tokens, in order; `None` if any token throws. */
  function ClauseLiterals(tokens: seq<string>): (r: Option<seq<Literal>>)
    ensures r.Some? ==> |r.value| <= |tokens|
  {
    if tokens == [] then Some([])
    else
      match ClauseLiterals(tokens[..|tokens| - 1])
      case None => None
      case Some(lits) =>
        match ParseToken(tokens[|tokens| - 1])
        case None => None
        case Some(None) => Some(lits)
        case Some(Some(l)) => Some(lits + [l])
  }

  /** A `p` line: `parts[1]` must be `cnf`; `vars` is set before `parts[3]` is read. */
  function ParseHeader(st: ParseState, parts: seq<string>): (r: LineResult)
    ensures r.st.clauses == st.clauses
    ensures r.Continue? <==>
      |parts| >= 4 && parts[1] == "cnf" && ParseInt(parts[2]).Some? && ParseInt(parts[3]).Some?
    ensures |parts| >= 3 && parts[1] == "cnf" && ParseInt(parts[2]).Some? ==>
      r.st.vars == ParseInt(parts[2]).value
    ensures r.Continue? ==> r.st.numClauses == ParseInt(parts[3]).value
    ensures r.st.vars != st.vars || r.st.numClauses != st.numClauses ==> |parts| >= 3 && parts[1] == "cnf"
  {
    if |parts| < 2 || parts[1] != "cnf" || |parts| < 3 then Abort(st)
    else
      match ParseInt(parts[2])
      case None => Abort(st)
      case Some(vars) =>
        var st' := st.(vars := vars);
        if |parts| < 4 then Abort(st')
        else
          match ParseInt(parts[3])
          case None => Abort(st')
          case Some(numClauses) => Continue(st'.(numClauses := numClauses))
  }

  /** The body of the line loop. */
  function ParseLine(st: ParseState, raw: string): (r: LineResult)
    ensures var line := Trim(raw);
      && (line != [] && line[0] == 'c' ==> r == Continue(st))
      && (line == [] || line[0] != 'p' ==> r.st.vars == st.vars && r.st.numClauses == st.numClauses)
      && (line != [] && line[0] == 'p' ==> r.st.clauses == st.clauses)
      && st.clauses <= r.st.clauses
  {
    var line := Trim(raw);
    if |line| > 0 && line[0] == 'c' then Continue(st)
    else if |line| > 0 && line[0] == 'p' then ParseHeader(st, Split(line, ' '))
    else
      match ClauseLiterals(NonBlank(Split(line, ' ')))
      case None => Abort(st)
      case Some(lits) =>
        Continue(if lits == [] then st else st.(clauses := st.clauses + [Clause(lits)]))
  }

  /** The line loop: every line in turn, up to and including the first that throws. */
  function ParseLines(st: ParseState, lines: seq<string>): (r: ParseState)
    ensures st.clauses <= r.clauses
    decreases |lines|
  {
    if lines == [] then st
    else
      match ParseLine(st, lines[0])
      case Abort(st') => st'
      case Continue(st') => ParseLines(st', lines[1..])
  }

  /**
   * The checks after the loop: the clause count, then the array size of the
   * constructor. Reading succeeds exactly when the last declared clause count
   * equals the number of clauses read and the declared variable count is not
   * negative, and then hands over exactly what was read.
   */
  function Finish(st: ParseState): (r: Result<Problem, ParseError>)
    ensures r.Success? <==> st.numClauses == |st.clauses| && st.vars >= 0
    ensures r.Success? ==> r.value == Problem(st.vars, st.clauses)
    ensures st.numClauses != |st.clauses| ==> r == Failure(ClauseCountMismatch(st.numClauses, |st.clauses|))
  {
    if st.numClauses != |st.clauses| then Failure(ClauseCountMismatch(st.numClauses, |st.clauses|))
    else if st.vars < 0 then Failure(NegativeVariableCount(st.vars))
    else Success(Problem(st.vars, st.clauses))
  }

  /**
   * `parseFile` over the file's lines. It succeeds exactly when the clause
   * count declared last matches the clauses read and the declared variable
   * count is not negative.
   */
  method ParseFile(lines: seq<string>) returns (r: Result<Problem, ParseError>)
    ensures r == Finish(ParseLines(Initial, lines))
    ensures r.Success? ==> forall c :: c in r.value.clauses ==> c.literals != []
  {
    var vars, numClauses, clauses := 0, 0, [];
    var i := 0;
    var stopped := false;
    while i < |lines| && !stopped
      invariant 0 <= i <= |lines|
      invariant stopped ==> ParseState(vars, numClauses, clauses) == ParseLines(Initial, lines)
      invariant !stopped ==> ParseLines(ParseState(vars, numClauses, clauses), lines[i..])
                             == ParseLines(Initial, lines)
      decreases |lines| - i, if stopped then 0 else 1
    {
      assert lines[i..][0] == lines[i] && lines[i..][1..] == lines[i + 1..];
      var result := ParseLine(ParseState(vars, numClauses, clauses), lines[i]);
      vars, numClauses, clauses := result.st.vars, result.st.numClauses, result.st.clauses;
      if result.Abort? {
        stopped := true;
      } else {
        i := i + 1;
      }
    }
    assert !stopped ==> lines[i..] == [];
    if numClauses != |clauses| {
      return Failure(ClauseCountMismatch(numClauses, |clauses|));
    }
    if vars < 0 {
      return Failure(NegativeVariableCount(vars));
    }
    ParsedClausesNonEmpty(Initial, lines);
    return Success(Problem(vars, clauses));
  }

  // ---------------------------------------------------------------------
  // Properties of the reader

  /** Every clause read has at least one literal: literal-free lines are dropped. */
  lemma {:induction false} ParsedClausesNonEmpty(st: ParseState, lines: seq<string>)
    requires forall c :: c in st.clauses ==> c.literals != []
    ensures forall c :: c in ParseLines(st, lines).clauses ==> c.literals != []
    decreases |lines|
  {
    if lines != [] {
      var result := ParseLine(st, lines[0]);
      var next := result.st;
      ParseLineClauses(st, lines[0]);
      forall c | c in next.clauses ensures c.literals != [] {
        var k :| 0 <= k < |next.clauses| && next.clauses[k] == c;
        if next.clauses != st.clauses && k < |st.clauses| {
          assert c == next.clauses[..|st.clauses|][k];
        }
      }
      if result.Continue? {
        ParsedClausesNonEmpty(next, lines[1..]);
        assert ParseLines(st, lines) == ParseLines(next, lines[1..]);
      } else {
        assert ParseLines(st, lines) == next;
      }
    }
  }

  /** A line either leaves the clause list alone or appends one clause with literals. */
  lemma ParseLineClauses(st: ParseState, raw: string)
    ensures var r := ParseLine(st, raw).st.clauses;
      || r == st.clauses
      || (|r| == |st.clauses| + 1 && r[..|st.clauses|] == st.clauses && r[|st.clauses|].literals != [])
  {
    var line := Trim(raw);
    if |line| > 0 && line[0] == 'c' {
    } else if |line| > 0 && line[0] == 'p' {
      assert ParseLine(st, raw).st.clauses == st.clauses;
    } else {
      match ClauseLiterals(NonBlank(Split(line, ' ')))
      case None =>
      case Some(lits) =>
        if lits != [] {
          assert (st.clauses + [Clause(lits)])[..|st.clauses|] == st.clauses;
        }
    }
  }

  /** Comment lines (first non-blank character `c`) change nothing. */
  lemma CommentLine(st: ParseState, line: string)
    requires Trim(line) != [] && Trim(line)[0] == 'c'
    ensures ParseLine(st, line) == Continue(st)
  {
  }

  /** Inserting a comment line anywhere in the file leaves the result unchanged. */
  lemma {:induction false} CommentLinesIgnored(st: ParseState, lines: seq<string>, k: nat, comment: string)
    requires k <= |lines|
    requires Trim(comment) != [] && Trim(comment)[0] == 'c'
    ensures ParseLines(st, lines[..k] + [comment] + lines[k..]) == ParseLines(st, lines)
    decreases k
  {
    var with := lines[..k] + [comment] + lines[k..];
    if k == 0 {
      assert with[0] == comment && with[1..] == lines;
    } else {
      assert with[0] == lines[0];
      match ParseLine(st, lines[0])
      case Abort(st') =>
      case Continue(st') =>
        assert with[1..] == lines[1..][..k - 1] + [comment] + lines[1..][k - 1..];
        CommentLinesIgnored(st', lines[1..], k - 1, comment);
    }
  }

  /** A blank line is a clause line with no literals, and is dropped. */
  lemma BlankLine(st: ParseState, line: string)
    requires IsBlank(line)
    ensures ParseLine(st, line) == Continue(st)
  {
    TrimBlank(line);
    assert Split([], ' ') == [[]];
    assert NonBlank([[]]) == [];
  }

  /** A `0` token anywhere on a clause line is skipped; it does not end the clause. */
  lemma {:induction false} ZeroSkipped(ts: seq<string>, us: seq<string>)
    ensures ClauseLiterals(ts + ["0"] + us) == ClauseLiterals(ts + us)
    decreases |us|
  {
    if us == [] {
      assert ts + ["0"] + us == ts + ["0"] && ts + us == ts;
      ClauseLiteralsZero(ts);
    } else {
      var init, last := us[..|us| - 1], us[|us| - 1];
      ZeroSkipped(ts, init);
      ClauseLiteralsCongruence(ts + ["0"] + init, ts + init, last);
      assert ts + ["0"] + init + [last] == ts + ["0"] + us;
      assert ts + init + [last] == ts + us;
    }
  }

  /** The tokens read so far determine what one more token gives. */
  lemma ClauseLiteralsCongruence(xs: seq<string>, ys: seq<string>, t: string)
    requires ClauseLiterals(xs) == ClauseLiterals(ys)
    ensures ClauseLiterals(xs + [t]) == ClauseLiterals(ys + [t])
  {
    assert (xs + [t])[..|xs|] == xs && (xs + [t])[|xs|] == t;
    assert (ys + [t])[..|ys|] == ys && (ys + [t])[|ys|] == t;
  }

  /**
   * Only one leading `-` is removed before `toInt`: a token `--n` reads as the
   * negated literal of variable `-n - 1`, an index no array has. The reader
   * never checks indices against the declared variable count.
   */
  lemma DoubleMinusToken(n: int)
    requires 0 < n <= IntMax
    ensures ParseToken("-" + ShowInt(-n)) == Some(Some(Literal(-n - 1, true)))
  {
    ParseShowInt(-n);
    var t := "-" + ShowInt(-n);
    assert t[0] == '-' && t[1..] == ShowInt(-n);
  }

  /**
   * A file whose first line is a `p` line naming a format other than `cnf`
   * reads as the empty problem: the `require` throws, the exception is
   * swallowed, and no later line is read.
   */
  lemma UnknownFormatReadsEmpty(line: string, rest: seq<string>)
    requires var t := Trim(line);
      t != [] && t[0] == 'p' && (|Split(t, ' ')| < 2 || Split(t, ' ')[1] != "cnf")
    ensures Finish(ParseLines(Initial, [line] + rest)) == Success(Problem(0, []))
  {
    assert ([line] + rest)[0] == line;
    assert ParseLine(Initial, line) == Abort(Initial);
  }

  /** Nothing after a line that throws is read. */
  lemma LinesAfterAbortIgnored(st: ParseState, line: string, rest1: seq<string>, rest2: seq<string>)
    requires ParseLine(st, line).Abort?
    ensures ParseLines(st, [line] + rest1) == ParseLines(st, [line] + rest2) == ParseLine(st, line).st
  {
    assert ([line] + rest1)[0] == line && ([line] + rest2)[0] == line;
  }

  // ---------------------------------------------------------------------
  // Writing a problem as DIMACS text, and reading it back

  /** A literal the reader can produce from a plain token: variable number up to `Int.MAX_VALUE`. */
  predicate Writable(l: Literal)
  {
    0 <= l.index < IntMax
  }

  /** The DIMACS token of a literal: its one-based variable number, `-` when negated. */
  function LiteralToken(l: Literal): string
    requires l.index >= 0
  {
    (if l.negated then "-" else "") + ShowNat(l.index + 1)
  }

  function Tokens(lits: seq<Literal>): (ts: seq<string>)
    requires forall l :: l in lits ==> l.index >= 0
    ensures |ts| == |lits|
  {
    if lits == [] then [] else Tokens(lits[..|lits| - 1]) + [LiteralToken(lits[|lits| - 1])]
  }

  /** A clause line: the literal tokens and the terminating `0`, separated by single spaces. */
  function ClauseLine(c: Clause): string
    requires forall l :: l in c.literals ==> l.index >= 0
  {
    Join(Tokens(c.literals) + ["0"], ' ')
  }

  /** The header line `p cnf <vars> <clauses>`. */
  function HeaderLine(vars: nat, numClauses: nat): string
  {
    Join(["p", "cnf", ShowNat(vars), ShowNat(numClauses)], ' ')
  }

  function ClauseLines(cs: seq<Clause>): (lines: seq<string>)
    requires forall c, l :: c in cs && l in c.literals ==> l.index >= 0
    ensures |lines| == |cs|
  {
    if cs == [] then [] else [ClauseLine(cs[0])] + ClauseLines(cs[1..])
  }

  /** A problem the reader can read back: in the `Int` range, no empty clause. */
  predicate WritableProblem(p: Problem)
  {
    && p.numVars <= IntMax
    && |p.clauses| <= IntMax
    && WellFormed(p.clauses, p.numVars)
    && forall c :: c in p.clauses ==> c.literals != []
  }

  /** The DIMACS text of a problem: the header, then one line per clause. */
  function Render(p: Problem): seq<string>
    requires WritableProblem(p)
  {
    [HeaderLine(p.numVars, |p.clauses|)] + ClauseLines(p.clauses)
  }

  /** Every token of a literal holds a digit and no space or whitespace at its ends. */
  lemma LiteralTokenShape(l: Literal)
    requires l.index >= 0
    ensures var t := LiteralToken(l);
      && t != [] && (t[0] == '-' || IsDigit(t[0])) && IsDigit(t[|t| - 1])
      && ' ' !in t && !IsBlank(t)
  {
    var t := LiteralToken(l);
    var d := ShowNat(l.index + 1);
    assert t[|t| - 1] == d[|d| - 1];
    assert !IsWhitespace(t[|t| - 1]);
  }

  /** A nonzero token reads as the literal it writes: variable `|k| - 1`, negated when `k < 0`. */
  lemma ParseLiteralToken(l: Literal)
    requires Writable(l)
    ensures ParseToken(LiteralToken(l)) == Some(Some(l))
  {
    var d := ShowNat(l.index + 1);
    var t := LiteralToken(l);
    ParseShowInt(l.index + 1);
    assert ShowInt(l.index + 1) == d;
    assert IsDigit(d[0]);
    if l.negated {
      assert t[0] == '-' && t[1..] == d;
    } else {
      assert t == d && t[0] != '-';
    }
    assert Dec32(l.index + 1) == l.index;
  }

  /** The filter keeps exactly the pieces that are not blank. */
  lemma {:induction false} NonBlankIff(parts: seq<string>)
    ensures forall p :: p in NonBlank(parts) <==> p in parts && !IsBlank(p)
  {
    if parts != [] {
      NonBlankIff(parts[..|parts| - 1]);
      assert parts == parts[..|parts| - 1] + [parts[|parts| - 1]];
    }
  }

  lemma {:induction false} NonBlankAll(parts: seq<string>)
    requires forall p :: p in parts ==> !IsBlank(p)
    ensures NonBlank(parts) == parts
  {
    if parts != [] {
      NonBlankAll(parts[..|parts| - 1]);
      assert parts[|parts| - 1] in parts;
      assert parts[..|parts| - 1] + [parts[|parts| - 1]] == parts;
    }
  }

  lemma {:induction false} TokensShape(lits: seq<Literal>)
    requires forall l :: l in lits ==> l.index >= 0
    ensures forall t :: t in Tokens(lits) ==> t != [] && ' ' !in t && !IsBlank(t)
  {
    if lits != [] {
      TokensShape(lits[..|lits| - 1]);
      LiteralTokenShape(lits[|lits| - 1]);
    }
  }

  /** A token that reads as a literal adds that literal to the ones before it. */
  lemma ClauseLiteralsSnoc(ts: seq<string>, t: string, l: Literal, lits: seq<Literal>)
    requires ClauseLiterals(ts) == Some(lits) && ParseToken(t) == Some(Some(l))
    ensures ClauseLiterals(ts + [t]) == Some(lits + [l])
  {
    assert (ts + [t])[..|ts|] == ts;
  }

  /** The tokens of literals read back as those literals. */
  lemma {:induction false} ClauseLiteralsTokens(lits: seq<Literal>)
    requires forall l :: l in lits ==> 0 <= l.index < IntMax
    ensures ClauseLiterals(Tokens(lits)) == Some(lits)
  {
    if lits != [] {
      var init, last := lits[..|lits| - 1], lits[|lits| - 1];
      assert init + [last] == lits;
      assert forall l :: l in init ==> l in lits;
      ClauseLiteralsTokens(init);
      ParseLiteralToken(last);
      assert Tokens(lits) == Tokens(init) + [LiteralToken(last)];
      ClauseLiteralsSnoc(Tokens(init), LiteralToken(last), last, init);
    }
  }

  /** A written clause line has no whitespace at its ends and starts with `-` or a digit. */
  lemma ClauseLineEnds(c: Clause)
    requires c.literals != [] && forall l :: l in c.literals ==> 0 <= l.index < IntMax
    ensures var line := ClauseLine(c);
      Trim(line) == line && line != [] && (line[0] == '-' || IsDigit(line[0]))
  {
    var ts := Tokens(c.literals) + ["0"];
    var line := ClauseLine(c);
    TokensFirst(c.literals);
    LiteralTokenShape(c.literals[0]);
    assert ts[0] == LiteralToken(c.literals[0]);
    JoinFirst(ts, ' ');
    JoinLast(ts, ' ');
    assert line[|line| - 1] == '0';
    TrimSpec(line);
  }

  /** A trailing `0` token adds no literal. */
  lemma ClauseLiteralsZero(ts: seq<string>)
    ensures ClauseLiterals(ts + ["0"]) == ClauseLiterals(ts)
  {
    assert (ts + ["0"])[..|ts|] == ts;
    assert DigitsValue("0") == 0;
    assert ParseToken("0") == Some(None);
  }

  /** A written clause line splits into its tokens and the final `0`, none of them blank. */
  lemma ClauseLineSplit(c: Clause)
    requires forall l :: l in c.literals ==> 0 <= l.index < IntMax
    ensures NonBlank(Split(ClauseLine(c), ' ')) == Tokens(c.literals) + ["0"]
  {
    var ts := Tokens(c.literals) + ["0"];
    TokensShape(c.literals);
    ZeroToken();
    assert forall t :: t in ts ==> ' ' !in t && !IsBlank(t);
    SplitJoin(ts, ' ');
    NonBlankAll(ts);
  }

  /** The tokens of a written clause line read back as its literals. */
  lemma ClauseLineTokens(c: Clause)
    requires forall l :: l in c.literals ==> 0 <= l.index < IntMax
    ensures ClauseLiterals(NonBlank(Split(ClauseLine(c), ' '))) == Some(c.literals)
  {
    ClauseLineSplit(c);
    ClauseLiteralsZero(Tokens(c.literals));
    ClauseLiteralsTokens(c.literals);
  }

  lemma ZeroToken()
    ensures ' ' !in "0" && !IsBlank("0")
  {
    assert "0"[0] == '0';
  }

  /** A written clause line reads back as that clause, appended to the clauses read so far. */
  lemma ParseClauseLine(st: ParseState, c: Clause)
    requires c.literals != [] && forall l :: l in c.literals ==> 0 <= l.index < IntMax
    ensures ParseLine(st, ClauseLine(c)) == Continue(st.(clauses := st.clauses + [c]))
  {
    ClauseLineEnds(c);
    ClauseLineTokens(c);
  }

  lemma {:induction false} TokensFirst(lits: seq<Literal>)
    requires lits != [] && forall l :: l in lits ==> l.index >= 0
    ensures Tokens(lits)[0] == LiteralToken(lits[0])
  {
    if |lits| > 1 {
      TokensFirst(lits[..|lits| - 1]);
    }
  }

  /** A written header line reads back as the two counts. */
  lemma ParseHeaderLine(st: ParseState, vars: nat, numClauses: nat)
    requires vars <= IntMax && numClauses <= IntMax
    ensures ParseLine(st, HeaderLine(vars, numClauses))
            == Continue(st.(vars := vars, numClauses := numClauses))
  {
    var parts := ["p", "cnf", ShowNat(vars), ShowNat(numClauses)];
    var line := HeaderLine(vars, numClauses);
    JoinFirst(parts, ' ');
    JoinLast(parts, ' ');
    var last := ShowNat(numClauses);
    assert !IsWhitespace(last[|last| - 1]);
    TrimSpec(line);
    assert Trim(line) == line;
    forall p | p in parts ensures ' ' !in p {
      if p == ShowNat(vars) || p == ShowNat(numClauses) {
        assert forall i :: 0 <= i < |p| ==> IsDigit(p[i]);
      }
    }
    SplitJoin(parts, ' ');
    ParseShowInt(vars);
    ParseShowInt(numClauses);
  }

  /** A line that does not throw hands its state on to the rest of the lines. */
  lemma ParseLinesCons(st: ParseState, line: string, rest: seq<string>, next: ParseState)
    requires ParseLine(st, line) == Continue(next)
    ensures ParseLines(st, [line] + rest) == ParseLines(next, rest)
  {
    assert ([line] + rest)[0] == line && ([line] + rest)[1..] == rest;
  }

  /**
   * Lines of which the `i`-th appends the `i`-th clause, given the clauses
   * before it: after the first `k` lines the first `k` clauses have been read.
   */
  lemma {:induction false} ParseLinesPrefix(st: ParseState, lines: seq<string>, cs: seq<Clause>, k: nat)
    requires |lines| == |cs| && k <= |lines|
    requires forall i :: 0 <= i < |lines| ==>
      ParseLine(st.(clauses := st.clauses + cs[..i]), lines[i])
      == Continue(st.(clauses := st.clauses + cs[..i + 1]))
    ensures ParseLines(st, lines) == ParseLines(st.(clauses := st.clauses + cs[..k]), lines[k..])
    decreases k
  {
    if k == 0 {
      assert st.clauses + cs[..0] == st.clauses && lines[0..] == lines;
    } else {
      ParseLinesPrefix(st, lines, cs, k - 1);
      var j := k - 1;
      assert lines[j..][0] == lines[j] && lines[j..][1..] == lines[k..];
      assert ParseLine(st.(clauses := st.clauses + cs[..j]), lines[j])
             == Continue(st.(clauses := st.clauses + cs[..k]));
    }
  }

  lemma {:induction false} ClauseLinesAt(cs: seq<Clause>, i: int)
    requires forall c, l :: c in cs && l in c.literals ==> l.index >= 0
    requires 0 <= i < |cs|
    ensures ClauseLines(cs)[i] == ClauseLine(cs[i])
    decreases |cs|
  {
    if i > 0 {
      ClauseLinesAt(cs[1..], i - 1);
    }
  }

  lemma AppendNext(xs: seq<Clause>, ys: seq<Clause>, i: int)
    requires 0 <= i < |ys|
    ensures xs + ys[..i] + [ys[i]] == xs + ys[..i + 1]
  {
    assert ys[..i + 1] == ys[..i] + [ys[i]];
  }

  /** The `i`-th written clause line appends the `i`-th clause to the ones before it. */
  lemma ParseClauseLineAt(st: ParseState, cs: seq<Clause>, i: int)
    requires forall c :: c in cs ==> c.literals != []
    requires forall c, l :: c in cs && l in c.literals ==> 0 <= l.index < IntMax
    requires 0 <= i < |cs|
    ensures ParseLine(st.(clauses := st.clauses + cs[..i]), ClauseLines(cs)[i])
            == Continue(st.(clauses := st.clauses + cs[..i + 1]))
  {
    AppendNext(st.clauses, cs, i);
    ClauseLinesAt(cs, i);
    assert cs[i] in cs;
    ParseClauseLine(st.(clauses := st.clauses + cs[..i]), cs[i]);
  }

  /** Written clause lines read back as those clauses, appended in order. */
  lemma ParseClauseLines(st: ParseState, cs: seq<Clause>)
    requires forall c :: c in cs ==> c.literals != []
    requires forall c, l :: c in cs && l in c.literals ==> 0 <= l.index < IntMax
    ensures ParseLines(st, ClauseLines(cs)) == st.(clauses := st.clauses + cs)
  {
    var lines := ClauseLines(cs);
    forall i | 0 <= i < |cs|
      ensures ParseLine(st.(clauses := st.clauses + cs[..i]), lines[i])
              == Continue(st.(clauses := st.clauses + cs[..i + 1]))
    {
      ParseClauseLineAt(st, cs, i);
    }
    ParseLinesPrefix(st, lines, cs, |cs|);
    assert cs[..|cs|] == cs && lines[|cs|..] == [];
  }

  /** Reading the written text of a problem gives the problem back. */
  lemma ParseRender(p: Problem)
    requires WritableProblem(p)
    ensures Finish(ParseLines(Initial, Render(p))) == Success(p)
  {
    var cs := p.clauses;
    var st := ParseState(p.numVars, |cs|, []);
    ParseHeaderLine(Initial, p.numVars, |cs|);
    ParseLinesCons(Initial, HeaderLine(p.numVars, |cs|), ClauseLines(cs), st);
    ParseClauseLines(st, cs);
    assert st.clauses + cs == cs;
  }
}
