/**
  PHP's `is_numeric()` on strings (PHP 8 rules): optional surrounding
  whitespace, an optional sign, an integer or decimal mantissa and an
  optional exponent. The check is a left-to-right scan, `Run`, that collects
  the parts of the literal as it goes; it is proved to accept exactly the
  texts of well-formed literals with whitespace around them.
*/
module PhpNumeric {
  import opened Wrappers
  import opened PhpText

  /** The whitespace PHP allows around a numeric string: " \t\n\r\v\f". */
  predicate IsSpace(c: char) { c in {' ', '\t', '\n', '\r', '\U{000B}', '\U{000C}'} }

  predicate AllSpace(s: string) { forall i {:trigger IsSpace(s[i])} :: 0 <= i < |s| ==> IsSpace(s[i]) }

  datatype Sign = Unsigned | Plus | Minus

  datatype Exponent = Exponent(marker: char, sign: Sign, digits: string)

  /** `whole` and `frac` are the digits before and after the (optional) dot. */
  datatype NumLit = NumLit(sign: Sign, whole: string, dot: bool, frac: string, exp: Option<Exponent>)

  /** The sign and the digits around the dot form a mantissa of the grammar. */
  predicate MantissaOk(l: NumLit) {
    && AllDigits(l.whole) && AllDigits(l.frac)
    && |l.whole| + |l.frac| > 0
    && (!l.dot ==> l.frac == [])
  }

  /** The literals the numeric-string grammar admits. */
  predicate WellFormed(l: NumLit) {
    && MantissaOk(l)
    && (l.exp.Some? ==> l.exp.value.marker in {'e', 'E'} &&
                        |l.exp.value.digits| > 0 && AllDigits(l.exp.value.digits))
  }

  function SignText(s: Sign): string {
    match s
    case Unsigned => ""
    case Plus => "+"
    case Minus => "-"
  }

  function DotText(dot: bool): string { if dot then "." else "" }

  function ExponentText(e: Option<Exponent>): string {
    match e
    case None => ""
    case Some(x) => [x.marker] + SignText(x.sign) + x.digits
  }

  function MantissaText(l: NumLit): string {
    SignText(l.sign) + l.whole + (DotText(l.dot) + l.frac)
  }

  /** The text of a literal. */
  function Render(l: NumLit): string {
    MantissaText(l) + ExponentText(l.exp)
  }

  const EmptyLit: NumLit := NumLit(Unsigned, "", false, "", None)

  /** Where the scan stands: which part of the literal the next character may extend. */
  datatype Phase = Lead | Signed | Whole | Frac | ExpMark | ExpSigned | ExpDigits | Trail | Reject

  /** The scan state: the leading whitespace, the literal so far and the trailing whitespace. */
  datatype Lexer = Lexer(phase: Phase, lead: string, lit: NumLit, trail: string)

  const Start: Lexer := Lexer(Lead, "", EmptyLit, "")

  function SignOf(c: char): Sign { if c == '-' then Minus else Plus }

  /** One character of the scan. */
  function Step(st: Lexer, c: char): Lexer {
    var l := st.lit;
    var digits := |l.whole| + |l.frac| > 0;
    match st.phase
    case Lead =>
      if IsSpace(c) then st.(lead := st.lead + [c])
      else if c == '+' || c == '-' then st.(phase := Signed, lit := l.(sign := SignOf(c)))
      else if IsDigit(c) then st.(phase := Whole, lit := l.(whole := [c]))
      else if c == '.' then st.(phase := Frac, lit := l.(dot := true))
      else st.(phase := Reject)
    case Signed =>
      if IsDigit(c) then st.(phase := Whole, lit := l.(whole := [c]))
      else if c == '.' then st.(phase := Frac, lit := l.(dot := true))
      else st.(phase := Reject)
    case Whole =>
      if IsDigit(c) then st.(lit := l.(whole := l.whole + [c]))
      else if c == '.' then st.(phase := Frac, lit := l.(dot := true))
      else if c == 'e' || c == 'E' then st.(phase := ExpMark, lit := l.(exp := Some(Exponent(c, Unsigned, ""))))
      else if IsSpace(c) then st.(phase := Trail, trail := [c])
      else st.(phase := Reject)
    case Frac =>
      if IsDigit(c) then st.(lit := l.(frac := l.frac + [c]))
      else if (c == 'e' || c == 'E') && digits then
        st.(phase := ExpMark, lit := l.(exp := Some(Exponent(c, Unsigned, ""))))
      else if IsSpace(c) && digits then st.(phase := Trail, trail := [c])
      else st.(phase := Reject)
    case ExpMark =>
      match l.exp {
        case None => st.(phase := Reject)
        case Some(x) =>
          if c == '+' || c == '-' then st.(phase := ExpSigned, lit := l.(exp := Some(x.(sign := SignOf(c)))))
          else if IsDigit(c) then st.(phase := ExpDigits, lit := l.(exp := Some(x.(digits := [c]))))
          else st.(phase := Reject)
      }
    case ExpSigned =>
      match l.exp {
        case None => st.(phase := Reject)
        case Some(x) =>
          if IsDigit(c) then st.(phase := ExpDigits, lit := l.(exp := Some(x.(digits := [c]))))
          else st.(phase := Reject)
      }
    case ExpDigits =>
      match l.exp {
        case None => st.(phase := Reject)
        case Some(x) =>
          if IsDigit(c) then st.(lit := l.(exp := Some(x.(digits := x.digits + [c]))))
          else if IsSpace(c) then st.(phase := Trail, trail := [c])
          else st.(phase := Reject)
      }
    case Trail =>
      if IsSpace(c) then st.(trail := st.trail + [c]) else st.(phase := Reject)
    case Reject => st
  }

  /** The scan of `s` from state `st`. */
  function Run(st: Lexer, s: string): Lexer
    decreases |s|
  {
    if s == [] then st else Run(Step(st, s[0]), s[1..])
  }

  /** The phases a complete numeric string may end in. */
  predicate Accepting(st: Lexer) {
    || st.phase == Whole || st.phase == ExpDigits || st.phase == Trail
    || (st.phase == Frac && |st.lit.whole| + |st.lit.frac| > 0)
  }

  /** `is_numeric($s)` for a string `$s`. */
  predicate IsNumeric(s: string) {
    Accepting(Run(Start, s))
  }

  predicate HasNonZeroDigit(s: string) {
    exists i :: 0 <= i < |s| && s[i] != '0'
  }

  /**
    `$s > 0` for a numeric string `$s`: the literal has no minus sign and a
    non-zero digit in its mantissa (the exponent only scales the value).
  */
  predicate PositiveNumeric(s: string)
    requires IsNumeric(s)
  {
    var l := Run(Start, s).lit;
    l.sign != Minus && HasNonZeroDigit(l.whole + l.frac)
  }

  // ---------------------------------------------------------------------------
  // Soundness: every accepted string is a literal with whitespace around it.

  /** What the scan has established about the literal collected so far, phase by phase. */
  predicate Shape(st: Lexer) {
    var l := st.lit;
    match st.phase
    case Lead => l == EmptyLit && st.trail == []
    case Signed => l == EmptyLit.(sign := l.sign) && st.trail == []
    case Whole =>
      AllDigits(l.whole) && |l.whole| > 0 && !l.dot && l.frac == [] && l.exp.None? && st.trail == []
    case Frac => AllDigits(l.whole) && AllDigits(l.frac) && l.dot && l.exp.None? && st.trail == []
    case ExpMark => ExpShape(l) && l.exp.value.sign == Unsigned && l.exp.value.digits == [] && st.trail == []
    case ExpSigned => ExpShape(l) && l.exp.value.digits == [] && st.trail == []
    case ExpDigits => ExpShape(l) && |l.exp.value.digits| > 0 && st.trail == []
    case Trail => WellFormed(l) && |st.trail| > 0
    case Reject => true
  }

  /** A complete mantissa followed by an exponent marker and exponent digits so far. */
  predicate ExpShape(l: NumLit) {
    MantissaOk(l) && l.exp.Some? && l.exp.value.marker in {'e', 'E'} && AllDigits(l.exp.value.digits)
  }

  /** The scan state accounts for every character consumed so far. */
  predicate Inv(st: Lexer, consumed: string) {
    st.phase != Reject ==>
      && consumed == st.lead + Render(st.lit) + st.trail
      && AllSpace(st.lead) && AllSpace(st.trail)
      && Shape(st)
  }

  lemma StepInvLead(st: Lexer, consumed: string, c: char)
    requires Inv(st, consumed) && st.phase == Lead
    ensures Inv(Step(st, c), consumed + [c])
  {
    var n := Step(st, c);
    assert Render(st.lit) == [];
    if IsSpace(c) {
      assert n.lead == st.lead + [c] && n.lit == st.lit;
    } else if c == '+' || c == '-' {
      assert SignText(n.lit.sign) == [c];
      assert Render(n.lit) == [c];
    } else if IsDigit(c) {
      assert Render(n.lit) == n.lit.whole;
    } else if c == '.' {
      assert Render(n.lit) == ".";
    }
  }

  lemma StepInvSigned(st: Lexer, consumed: string, c: char)
    requires Inv(st, consumed) && st.phase == Signed
    ensures Inv(Step(st, c), consumed + [c])
  {
    var n := Step(st, c);
    if n.phase != Reject {
      assert Render(st.lit) == SignText(st.lit.sign);
      assert Render(n.lit) == SignText(st.lit.sign) + [c];
    }
  }

  lemma StepInvWhole(st: Lexer, consumed: string, c: char)
    requires Inv(st, consumed) && st.phase == Whole
    ensures Inv(Step(st, c), consumed + [c])
  {
    var n := Step(st, c);
    var l := st.lit;
    assert Render(l) == SignText(l.sign) + l.whole;
    if IsDigit(c) {
      assert n.lit.whole == l.whole + [c];
      assert Render(n.lit) == SignText(l.sign) + n.lit.whole;
    } else if c == '.' {
      assert Render(n.lit) == SignText(l.sign) + l.whole + [c];
    } else if c == 'e' || c == 'E' {
      assert Render(n.lit) == SignText(l.sign) + l.whole + [c];
    } else if IsSpace(c) {
      assert n.lead + Render(n.lit) + n.trail == st.lead + Render(l) + [c];
    }
  }

  lemma StepInvFrac(st: Lexer, consumed: string, c: char)
    requires Inv(st, consumed) && st.phase == Frac
    ensures Inv(Step(st, c), consumed + [c])
  {
    var n := Step(st, c);
    var l := st.lit;
    var m := SignText(l.sign) + l.whole + "." + l.frac;
    assert Render(l) == m;
    if IsDigit(c) {
      assert n.lit.frac == l.frac + [c];
      assert Render(n.lit) == SignText(l.sign) + l.whole + "." + n.lit.frac;
    } else if n.phase == ExpMark {
      assert Render(n.lit) == m + [c];
    } else if n.phase == Trail {
      assert n.lead + Render(n.lit) + n.trail == st.lead + m + [c];
    }
  }

  /** Appending one character to the exponent appends it to the rendered literal. */
  lemma RenderGrows(l: NumLit, l': NumLit, c: char)
    requires MantissaText(l') == MantissaText(l)
    requires ExponentText(l'.exp) == ExponentText(l.exp) + [c]
    ensures Render(l') == Render(l) + [c]
  {
  }

  /** After the exponent marker: the exponent's sign or its first digit. */
  lemma StepInvExpMark(st: Lexer, consumed: string, c: char)
    requires Inv(st, consumed) && st.phase == ExpMark
    ensures Inv(Step(st, c), consumed + [c])
  {
    var n := Step(st, c);
    if n.phase != Reject {
      var x := st.lit.exp.value;
      var y := n.lit.exp.value;
      assert ExponentText(st.lit.exp) == [x.marker];
      if n.phase == ExpSigned {
        assert ExponentText(n.lit.exp) == [x.marker] + [c];
      } else {
        assert y.digits == [c];
        assert ExponentText(n.lit.exp) == [x.marker] + [c];
      }
      RenderGrows(st.lit, n.lit, c);
    }
  }

  /** After the exponent's sign: its first digit. */
  lemma StepInvExpSigned(st: Lexer, consumed: string, c: char)
    requires Inv(st, consumed) && st.phase == ExpSigned
    ensures Inv(Step(st, c), consumed + [c])
  {
    var n := Step(st, c);
    if n.phase != Reject {
      var x := st.lit.exp.value;
      var y := n.lit.exp.value;
      assert y.digits == [c] && y.sign == x.sign;
      assert ExponentText(n.lit.exp) == ExponentText(st.lit.exp) + [c];
      RenderGrows(st.lit, n.lit, c);
    }
  }

  /** Within the exponent digits: another digit, or the first trailing space. */
  lemma StepInvExpDigits(st: Lexer, consumed: string, c: char)
    requires Inv(st, consumed) && st.phase == ExpDigits
    ensures Inv(Step(st, c), consumed + [c])
  {
    var n := Step(st, c);
    var l := st.lit;
    var x := l.exp.value;
    var m := MantissaText(l);
    if n.phase == Trail {
      assert n.lead + Render(n.lit) + n.trail == st.lead + Render(l) + [c];
    } else if n.phase != Reject {
      var y := n.lit.exp.value;
      assert y.digits == x.digits + [c];
      assert ExponentText(n.lit.exp) == ExponentText(l.exp) + [c];
      assert Render(n.lit) == m + ExponentText(n.lit.exp);
    }
  }

  lemma StepInv(st: Lexer, consumed: string, c: char)
    requires Inv(st, consumed)
    ensures Inv(Step(st, c), consumed + [c])
  {
    match st.phase
    case Lead => StepInvLead(st, consumed, c);
    case Signed => StepInvSigned(st, consumed, c);
    case Whole => StepInvWhole(st, consumed, c);
    case Frac => StepInvFrac(st, consumed, c);
    case ExpMark => StepInvExpMark(st, consumed, c);
    case ExpSigned => StepInvExpSigned(st, consumed, c);
    case ExpDigits => StepInvExpDigits(st, consumed, c);
    case Trail => assert Step(st, c).trail == st.trail + [c] || Step(st, c).phase == Reject;
    case Reject =>
  }

  lemma {:induction false} RunInv(st: Lexer, consumed: string, s: string)
    requires Inv(st, consumed)
    ensures Inv(Run(st, s), consumed + s)
    decreases |s|
  {
    if s != [] {
      StepInv(st, consumed, s[0]);
      assert consumed + [s[0]] + s[1..] == consumed + s;
      RunInv(Step(st, s[0]), consumed + [s[0]], s[1..]);
    }
  }

  /** A numeric string is a well-formed literal with whitespace around it, as the scan collected them. */
  lemma NumericIsLiteral(s: string)
    requires IsNumeric(s)
    ensures var st := Run(Start, s);
            s == st.lead + Render(st.lit) + st.trail &&
            AllSpace(st.lead) && AllSpace(st.trail) && WellFormed(st.lit)
  {
    assert Inv(Start, "") by { assert Render(EmptyLit) == ""; }
    RunInv(Start, "", s);
    assert "" + s == s;
  }

  // ---------------------------------------------------------------------------
  // Completeness: every literal with whitespace around it is accepted.

  lemma {:induction false} RunConcat(st: Lexer, a: string, b: string)
    ensures Run(st, a + b) == Run(Run(st, a), b)
    decreases |a|
  {
    if a != [] {
      assert (a + b)[0] == a[0] && (a + b)[1..] == a[1..] + b;
      RunConcat(Step(st, a[0]), a[1..], b);
    } else {
      assert a + b == b;
    }
  }

  lemma {:induction false} RunLeadSpace(st: Lexer, w: string)
    requires st.phase == Lead && AllSpace(w)
    ensures Run(st, w) == st.(lead := st.lead + w)
    decreases |w|
  {
    if w != [] {
      RunLeadSpace(Step(st, w[0]), w[1..]);
      assert st.lead + [w[0]] + w[1..] == st.lead + w;
    } else {
      assert st.lead + w == st.lead;
    }
  }

  lemma {:induction false} RunTrailSpace(st: Lexer, w: string)
    requires st.phase == Trail && AllSpace(w)
    ensures Run(st, w) == st.(trail := st.trail + w)
    decreases |w|
  {
    if w != [] {
      RunTrailSpace(Step(st, w[0]), w[1..]);
      assert st.trail + [w[0]] + w[1..] == st.trail + w;
    } else {
      assert st.trail + w == st.trail;
    }
  }

  lemma {:induction false} RunWholeDigits(st: Lexer, d: string)
    requires st.phase == Whole && AllDigits(d)
    ensures Run(st, d) == st.(lit := st.lit.(whole := st.lit.whole + d))
    decreases |d|
  {
    if d != [] {
      assert IsDigit(d[0]);
      RunWholeDigits(Step(st, d[0]), d[1..]);
      assert st.lit.whole + [d[0]] + d[1..] == st.lit.whole + d;
    } else {
      assert st.lit.whole + d == st.lit.whole;
    }
  }

  lemma {:induction false} RunFracDigits(st: Lexer, d: string)
    requires st.phase == Frac && AllDigits(d)
    ensures Run(st, d) == st.(lit := st.lit.(frac := st.lit.frac + d))
    decreases |d|
  {
    if d != [] {
      assert IsDigit(d[0]);
      RunFracDigits(Step(st, d[0]), d[1..]);
      assert st.lit.frac + [d[0]] + d[1..] == st.lit.frac + d;
    } else {
      assert st.lit.frac + d == st.lit.frac;
    }
  }

  lemma {:induction false} RunExpDigits(st: Lexer, d: string)
    requires st.phase == ExpDigits && st.lit.exp.Some? && AllDigits(d)
    ensures Run(st, d) == st.(lit := st.lit.(exp := Some(st.lit.exp.value.(digits := st.lit.exp.value.digits + d))))
    decreases |d|
  {
    if d != [] {
      assert IsDigit(d[0]);
      RunExpDigits(Step(st, d[0]), d[1..]);
      assert st.lit.exp.value.digits + [d[0]] + d[1..] == st.lit.exp.value.digits + d;
    } else {
      assert st.lit.exp.value.digits + d == st.lit.exp.value.digits;
    }
  }

  lemma RunOne(st: Lexer, c: char)
    ensures Run(st, [c]) == Step(st, c)
  {
    assert [c][1..] == [];
  }

  /** The sign, scanned after the leading whitespace. */
  lemma RunSign(st: Lexer, sg: Sign)
    requires st.phase == Lead && st.lit == EmptyLit && st.trail == []
    ensures Run(st, SignText(sg)) ==
            st.(phase := if sg == Unsigned then Lead else Signed, lit := EmptyLit.(sign := sg))
  {
    if sg != Unsigned {
      RunOne(st, SignText(sg)[0]);
    }
  }

  /** The digits before the dot, scanned after the sign. */
  lemma RunWhole(st: Lexer, sg: Sign, whole: string)
    requires st.phase in {Lead, Signed} && st.lit == EmptyLit.(sign := sg) && st.trail == []
    requires AllDigits(whole)
    ensures Run(st, whole) ==
            if whole == [] then st else Lexer(Whole, st.lead, st.lit.(whole := whole), "")
  {
    if whole != [] {
      assert IsDigit(whole[0]);
      assert whole == [whole[0]] + whole[1..];
      RunConcat(st, [whole[0]], whole[1..]);
      RunOne(st, whole[0]);
      RunWholeDigits(Step(st, whole[0]), whole[1..]);
    }
  }

  /** The dot and the digits after it, scanned after the digits before the dot. */
  lemma RunFraction(st: Lexer, dot: bool, frac: string)
    requires st.phase in {Lead, Signed, Whole} && st.lit.exp.None? && !st.lit.dot && st.lit.frac == []
    requires AllDigits(frac) && (!dot ==> frac == [])
    ensures Run(st, DotText(dot) + frac) ==
            if dot then st.(phase := Frac, lit := st.lit.(dot := true, frac := frac)) else st
  {
    if dot {
      RunConcat(st, ".", frac);
      RunOne(st, '.');
      RunFracDigits(Step(st, '.'), frac);
    } else {
      assert DotText(dot) + frac == [];
    }
  }

  /** Sign and mantissa, scanned after the leading whitespace. */
  lemma RunMantissa(w: string, l: NumLit)
    requires AllSpace(w) && MantissaOk(l)
    ensures Run(Start, w + MantissaText(l)) ==
            Lexer(if l.dot then Frac else Whole, w, l.(exp := None), "")
  {
    RunLeadSpace(Start, w);
    assert "" + w == w;
    var s0 := Run(Start, w);
    RunSign(s0, l.sign);
    var s1 := Run(s0, SignText(l.sign));
    RunWhole(s1, l.sign, l.whole);
    var s2 := Run(s1, l.whole);
    RunFraction(s2, l.dot, l.frac);
    RunConcat(s0, SignText(l.sign), l.whole);
    RunConcat(s0, SignText(l.sign) + l.whole, DotText(l.dot) + l.frac);
    RunConcat(Start, w, MantissaText(l));
  }

  /** The exponent marker and its sign, scanned after a complete mantissa. */
  lemma RunExponentHead(st: Lexer, x: Exponent)
    requires st.phase in {Whole, Frac} && |st.lit.whole| + |st.lit.frac| > 0
    requires x.marker in {'e', 'E'}
    ensures Run(st, [x.marker] + SignText(x.sign)) ==
            st.(phase := if x.sign == Unsigned then ExpMark else ExpSigned,
                lit := st.lit.(exp := Some(Exponent(x.marker, x.sign, ""))))
  {
    var s1 := Step(st, x.marker);
    RunConcat(st, [x.marker], SignText(x.sign));
    RunOne(st, x.marker);
    if x.sign != Unsigned {
      RunOne(s1, SignText(x.sign)[0]);
    } else {
      assert SignText(x.sign) == [];
    }
  }

  /** The exponent digits, scanned after the exponent marker and sign. */
  lemma RunExponentDigits(st: Lexer, d: string)
    requires st.phase in {ExpMark, ExpSigned} && st.lit.exp.Some? && |d| > 0 && AllDigits(d)
    ensures Run(st, d) == st.(phase := ExpDigits, lit := st.lit.(exp := Some(st.lit.exp.value.(digits := d))))
  {
    assert IsDigit(d[0]);
    RunOne(st, d[0]);
    RunExpDigits(Step(st, d[0]), d[1..]);
    assert [d[0]] + d[1..] == d;
    RunConcat(st, [d[0]], d[1..]);
  }

  /** The exponent part, scanned after a complete mantissa. */
  lemma RunExponent(st: Lexer, x: Exponent)
    requires st.phase in {Whole, Frac} && |st.lit.whole| + |st.lit.frac| > 0
    requires x.marker in {'e', 'E'} && |x.digits| > 0 && AllDigits(x.digits)
    ensures Run(st, ExponentText(Some(x))) == st.(phase := ExpDigits, lit := st.lit.(exp := Some(x)))
  {
    var head := [x.marker] + SignText(x.sign);
    RunExponentHead(st, x);
    RunExponentDigits(Run(st, head), x.digits);
    RunConcat(st, head, x.digits);
  }

  /** A well-formed literal after leading whitespace leaves the scan in an accepting phase holding it. */
  lemma RunLiteral(w1: string, l: NumLit)
    requires AllSpace(w1) && WellFormed(l)
    ensures var st := Run(Start, w1 + Render(l));
            Accepting(st) && st.phase != Trail && (st.phase == ExpDigits <==> l.exp.Some?) &&
            st.lead == w1 && st.lit == l && st.trail == []
  {
    var m := w1 + MantissaText(l);
    RunMantissa(w1, l);
    var sm := Run(Start, m);
    RunConcat(Start, m, ExponentText(l.exp));
    assert w1 + Render(l) == m + ExponentText(l.exp);
    if l.exp.Some? {
      RunExponent(sm, l.exp.value);
      assert sm.lit.(exp := l.exp) == l;
    } else {
      assert m + ExponentText(l.exp) == m;
      assert sm.lit == l;
    }
  }

  /** Trailing whitespace after an accepted literal keeps it accepted. */
  lemma RunTrailing(st: Lexer, w2: string)
    requires Accepting(st) && st.phase != Trail && st.trail == [] && AllSpace(w2)
    requires st.phase == ExpDigits ==> st.lit.exp.Some?
    ensures var t := Run(st, w2); Accepting(t) && t.lead == st.lead && t.lit == st.lit && t.trail == w2
  {
    if w2 != [] {
      assert IsSpace(w2[0]);
      var t := Step(st, w2[0]);
      assert t == st.(phase := Trail, trail := [w2[0]]);
      RunTrailSpace(t, w2[1..]);
      RunConcat(st, [w2[0]], w2[1..]);
      assert [w2[0]] + w2[1..] == w2;
    }
  }

  /** A well-formed literal with whitespace around it is numeric, and the scan collects exactly its parts. */
  lemma LiteralIsNumeric(w1: string, l: NumLit, w2: string)
    requires AllSpace(w1) && AllSpace(w2) && WellFormed(l)
    ensures var st := Run(Start, w1 + Render(l) + w2);
            Accepting(st) && st.lead == w1 && st.lit == l && st.trail == w2
  {
    RunLiteral(w1, l);
    RunConcat(Start, w1 + Render(l), w2);
    RunTrailing(Run(Start, w1 + Render(l)), w2);
  }

  // ---------------------------------------------------------------------------
  // Consequences used by the threshold resolution.

  /** A non-empty run of digits is numeric; it is positive exactly when some digit is not zero. */
  lemma DigitsAreNumeric(s: string)
    requires |s| > 0 && AllDigits(s)
    ensures IsNumeric(s)
    ensures PositiveNumeric(s) <==> HasNonZeroDigit(s)
  {
    var l := NumLit(Unsigned, s, false, "", None);
    assert Render(l) == s;
    LiteralIsNumeric("", l, "");
    assert "" + s + "" == s;
    assert l.whole + l.frac == s;
  }

  /** `s` is leading whitespace, a literal greater than zero, and trailing whitespace. */
  predicate PositiveLiteral(s: string, w1: string, l: NumLit, w2: string) {
    && AllSpace(w1) && AllSpace(w2) && WellFormed(l)
    && s == w1 + Render(l) + w2
    && l.sign != Minus && HasNonZeroDigit(l.whole + l.frac)
  }

  /** `is_numeric($s) && $s > 0` holds exactly when `s` is a positive literal with whitespace around it. */
  lemma PositiveNumericIsLiteral(s: string)
    ensures IsNumeric(s) && PositiveNumeric(s) <==> exists w1, l, w2 :: PositiveLiteral(s, w1, l, w2)
  {
    if IsNumeric(s) && PositiveNumeric(s) {
      NumericIsLiteral(s);
      var st := Run(Start, s);
      assert PositiveLiteral(s, st.lead, st.lit, st.trail);
    }
    if exists w1, l, w2 :: PositiveLiteral(s, w1, l, w2) {
      var w1, l, w2 :| PositiveLiteral(s, w1, l, w2);
      LiteralIsNumeric(w1, l, w2);
    }
  }

  /** The strings PHP's `empty()` treats as false, "" and "0", are never a positive number. */
  lemma PositiveIsNotEmptyString(s: string)
    requires IsNumeric(s) && PositiveNumeric(s)
    ensures |s| > 0 && (|s| == 1 ==> s[0] != '0')
  {
    if |s| == 1 {
      assert Run(Start, s) == Step(Start, s[0]);
    }
  }
}
