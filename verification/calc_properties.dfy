/**
 Properties of the calculator engine that relate several operations: the
 sign toggle's round trip and where it breaks, the glyph rewriting and the
 whitelist, the engine invariant over any keystroke sequence, continuation
 after `=`, and re-evaluation.
 */
module CalcProperties {
  import opened Wrappers
  import opened PyStr
  import opened CalcEngine

  // ---------------------------------------------------------------------
  // Sign toggle
  // ---------------------------------------------------------------------

  /** A number starts with a digit or a minus sign and continues with digits
      and decimal points only. */
  lemma NumberShape(t: string)
    requires IsNumber(t)
    ensures IsDigit(t[0]) || t[0] == '-'
    ensures forall m :: 1 <= m < |t| ==> IsDigit(t[m]) || t[m] == '.'
  {
    if IsUnsignedNumber(t) {
      DigitsAndPointShape(t[1..], false);
      assert forall m :: 1 <= m < |t| ==> t[m] == t[1..][m - 1];
    } else {
      var u := t[1..];
      DigitsAndPointShape(u[1..], false);
      assert forall m :: 1 <= m < |t| ==> t[m] == t[1..][m - 1];
      assert forall m :: 1 <= m < |u| ==> u[m] == u[1..][m - 1];
    }
  }

  /** Only digits and points pass the scan. */
  lemma {:induction false} DigitsAndPointShape(t: string, pointSeen: bool)
    requires DigitsAndPoint(t, pointSeen)
    ensures forall m :: 0 <= m < |t| ==> IsDigit(t[m]) || t[m] == '.'
    decreases |t|
  {
    if t != [] {
      if IsDigit(t[0]) && DigitsAndPoint(t[1..], pointSeen) {
        DigitsAndPointShape(t[1..], pointSeen);
      } else {
        DigitsAndPointShape(t[1..], true);
      }
      assert forall m :: 1 <= m < |t| ==> t[m] == t[1..][m - 1];
    }
  }

  /** A start position that matches and has no matching position before it
      is the one the search reports. */
  lemma TrailingNumberIs(s: string, i: nat)
    requires i <= |MatchArea(s)| && NumberAt(MatchArea(s), i)
    requires forall j :: 0 <= j < i ==> !NumberAt(MatchArea(s), j)
    ensures TrailingNumber(s) == Some(i)
  {
  }

  /** One toggle on an unsigned trailing number puts a minus sign before it. */
  lemma ToggleUnsignedAt(s: string, i: nat)
    requires MatchArea(s) == s && TrailingNumber(s) == Some(i)
    requires IsUnsignedNumber(s[i..])
    ensures ToggleText(s) == s[..i] + ("-" + s[i..])
  {
    var r := ToggleText(s);
    assert r == r[..i] + r[i..];
  }

  /** One toggle on a signed trailing number removes its minus sign. */
  lemma ToggleSignedAt(s: string, i: nat)
    requires MatchArea(s) == s && TrailingNumber(s) == Some(i)
    requires !IsUnsignedNumber(s[i..])
    ensures i < |s| && s[i] == '-'
    ensures ToggleText(s) == s[..i] + s[i + 1..]
  {
    var r := ToggleText(s);
    assert s[i..][0] == s[i];
    assert s[i..][1..] == s[i + 1..];
    assert r == r[..i] + r[i..];
  }

  /** After the minus sign of a signed number comes an unsigned one. */
  lemma SignedRest(s: string, i: nat)
    requires i <= |s| && IsNumber(s[i..]) && !IsUnsignedNumber(s[i..])
    ensures i < |s| && IsUnsignedNumber(s[i + 1..])
  {
    assert s[i..][1..] == s[i + 1..];
  }

  /** Toggling twice restores the buffer when the trailing number was unsigned
      (and no final newline is in the way). */
  lemma ToggleTwiceRestoresUnsigned(s: string, i: nat)
    requires s != [] && s[|s| - 1] != '\n'
    requires TrailingNumber(s) == Some(i)
    requires IsUnsignedNumber(s[i..])
    ensures ToggleText(ToggleText(s)) == s
  {
    assert MatchArea(s) == s;
    var a, u := s[..i], s[i..];
    ToggleUnsignedAt(s, i);
    ToggleSignedAfter(a, u);
    assert ToggleText(s) == a + ("-" + u);
    assert a + u == s;
  }

  /** A signed trailing number comes back too, provided the character before
      it cannot extend the unsigned number leftwards (it is not a digit, a
      point or a minus sign). */
  lemma ToggleTwiceRestoresSigned(s: string, i: nat)
    requires s != [] && s[|s| - 1] != '\n'
    requires TrailingNumber(s) == Some(i) && i < |s| && s[i] == '-'
    requires i == 0 || (!IsDigit(s[i - 1]) && s[i - 1] != '.' && s[i - 1] != '-')
    ensures ToggleText(ToggleText(s)) == s
  {
    assert MatchArea(s) == s;
    assert s[i..][0] == '-';
    ToggleSignedAt(s, i);
    SignedRest(s, i);
    assert i == 0 || s[..i][i - 1] == s[i - 1];
    ToggleUnsignedAfter(s[..i], s[i + 1..]);
    SplitAround(s, i);
  }

  /** A text is its prefix, the character at `i` and its suffix. */
  lemma SplitAround(s: string, i: nat)
    requires i < |s|
    ensures s[..i] + ([s[i]] + s[i + 1..]) == s
  {
    assert s == s[..i] + s[i..];
    assert s[i..] == [s[i]] + s[i + 1..];
  }

  /** The toggle removes the sign of a signed number at the end of the text. */
  lemma ToggleSignedAfter(a: string, u: string)
    requires IsUnsignedNumber(u)
    ensures TrailingNumber(a + ("-" + u)) == Some(|a|)
    ensures ToggleText(a + ("-" + u)) == a + u
  {
    var t := a + ("-" + u);
    SignedTail(a, u);
    TrailingNumberIs(t, |a|);
    assert t[..|a|] == a && t[|a| + 1..] == u && t[|a|] == '-';
    ToggleSignedAt(t, |a|);
  }

  /** The toggle signs an unsigned number at the end of the text, when the
      character before it cannot belong to a number. */
  lemma ToggleUnsignedAfter(a: string, u: string)
    requires IsUnsignedNumber(u)
    requires a == [] || (!IsDigit(a[|a| - 1]) && a[|a| - 1] != '.' && a[|a| - 1] != '-')
    ensures TrailingNumber(a + u) == Some(|a|)
    ensures ToggleText(a + u) == a + ("-" + u)
  {
    var t := a + u;
    UnsignedTail(a, u);
    TrailingNumberIs(t, |a|);
    assert t[..|a|] == a && t[|a|..] == u;
    ToggleUnsignedAt(t, |a|);
  }

  /** In `a` followed by `-u`, the signed number `-u` is where the leftmost
      match starts: the minus sign stops any earlier start. */
  lemma SignedTail(a: string, u: string)
    requires IsUnsignedNumber(u)
    ensures var t := a + ("-" + u);
            && MatchArea(t) == t
            && NumberAt(t, |a|)
            && forall j :: 0 <= j < |a| ==> !NumberAt(t, j)
  {
    var t := a + ("-" + u);
    NumberShape(u);
    assert t[|t| - 1] == u[|u| - 1];
    assert t[|a|..] == "-" + u;
    assert ("-" + u)[1..] == u;
    forall j | 0 <= j < |a|
      ensures !NumberAt(t, j)
    {
      assert t[j..][|a| - j] == '-';
      NumberShapeAt(t[j..], |a| - j);
    }
  }

  /** In `a` followed by an unsigned `u`, where `a` is empty or ends in a
      character that cannot belong to a number, `u` is the leftmost match. */
  lemma UnsignedTail(a: string, u: string)
    requires IsUnsignedNumber(u)
    requires a == [] || (!IsDigit(a[|a| - 1]) && a[|a| - 1] != '.' && a[|a| - 1] != '-')
    ensures var t := a + u;
            && MatchArea(t) == t
            && NumberAt(t, |a|)
            && forall j :: 0 <= j < |a| ==> !NumberAt(t, j)
  {
    var t := a + u;
    NumberShape(u);
    assert t[|t| - 1] == u[|u| - 1];
    assert t[|a|..] == u;
    forall j | 0 <= j < |a|
      ensures !NumberAt(t, j)
    {
      PrefixCharBlocks(t, j, |a| - 1 - j);
    }
  }

  /** A character that is neither a digit nor a point blocks any number that
      would start before it; one that is also not a minus sign blocks a number
      starting on it. */
  lemma PrefixCharBlocks(s: string, j: nat, m: nat)
    requires j + m < |s|
    requires !IsDigit(s[j + m]) && s[j + m] != '.' && s[j + m] != '-'
    ensures !NumberAt(s, j)
  {
    var t := s[j..];
    assert t[m] == s[j + m];
    if IsNumber(t) {
      NumberShape(t);
    }
  }

  /** The toggle is not an involution in general: on `3-12` the minus sign of
      the subtraction is read as the number's sign, so one toggle gives `312`
      and a second gives `-312`. */
  lemma ToggleNotInvolution()
    ensures ToggleText("3-12") == "312"
    ensures ToggleText(ToggleText("3-12")) == "-312"
  {
    var s := "3-12";
    assert !IsNumber(s) by {
      assert s[1] == '-';
      NumberShapeAt(s, 1);
    }
    assert s[1..] == "-12";
    assert IsUnsignedNumber("12");
    TrailingNumberIs(s, 1);
    var t := "312";
    assert IsUnsignedNumber(t);
    TrailingNumberIs(t, 0);
  }

  lemma NumberShapeAt(t: string, m: nat)
    requires 1 <= m < |t| && !IsDigit(t[m]) && t[m] != '.'
    ensures !IsNumber(t)
  {
    if IsNumber(t) {
      NumberShape(t);
    }
  }

  /** A final newline sits outside the match, and the rewrite drops it:
      `12` followed by a newline becomes `-12`. */
  lemma ToggleDropsFinalNewline()
    ensures ToggleText("12\n") == "-12"
  {
    var s := "12\n";
    assert MatchArea(s) == "12";
    assert IsUnsignedNumber("12");
    TrailingNumberIs(s, 0);
  }

  // ---------------------------------------------------------------------
  // Glyph rewriting and the whitelist
  // ---------------------------------------------------------------------

  lemma {:induction false} NormalizeAppend(a: string, b: string)
    ensures Normalize(a + b) == Normalize(a) + Normalize(b)
  {
    if a == [] {
      assert a + b == b;
    } else {
      assert (a + b)[1..] == a[1..] + b;
      NormalizeAppend(a[1..], b);
    }
  }

  /** The one-pass rewrite is the source's chain of three `replace` calls. */
  lemma {:induction false} NormalizeIsReplaceChain(s: string)
    ensures Normalize(s) == ReplaceChar(ReplaceChar(ReplaceChar(s, '×', "*"), '÷', "/"), '%', "/100")
  {
    if s != [] {
      NormalizeIsReplaceChain(s[1..]);
      var head := [s[0]];
      assert s == head + s[1..];
      var a := ReplaceChar(s[1..], '×', "*");
      var b := ReplaceChar(a, '÷', "/");
      var h1 := ReplaceChar(head, '×', "*");
      ReplaceCharAppend(h1, a, '÷', "/");
      var h2 := ReplaceChar(h1, '÷', "/");
      ReplaceCharAppend(h2, b, '%', "/100");
    }
  }

  /** Doubled multiplication signs become the host's power operator. */
  lemma DoubledTimesIsPower()
    ensures Normalize("6××2") == "6**2"
  {
    assert Normalize("×2") == "*2" by {
      NormalizeAppend("×", "2");
      assert "×2" == "×" + "2";
    }
    assert Normalize("××2") == "**2";
    assert Normalize("6××2") == NormalizeChar('6') + Normalize("××2");
  }

  /** Doubled division signs become the host's floor division. */
  lemma DoubledDivideIsFloorDivision()
    ensures Normalize("8÷÷3") == "8//3"
  {
    assert Normalize("÷3") == "/3" by {
      NormalizeAppend("÷", "3");
      assert "÷3" == "÷" + "3";
    }
    assert Normalize("÷÷3") == "//3";
    assert Normalize("8÷÷3") == NormalizeChar('8') + Normalize("÷÷3");
  }

  /** A percent sign becomes a division by one hundred. */
  lemma PercentIsHundredth()
    ensures Normalize("50%") == "50/100"
  {
    assert Normalize("0%") == "0/100" by {
      NormalizeAppend("0", "%");
      assert "0%" == "0" + "%";
    }
    assert Normalize("50%") == NormalizeChar('5') + Normalize("0%");
  }

  /** A character the rewritten text may hold: a whitelist character or one
      of the three display glyphs. */
  predicate AcceptedChar(c: char)
  {
    SafeChar(c) || c in "×÷%"
  }

  lemma AllSafeAppend(a: string, b: string)
    ensures AllSafe(a + b) <==> AllSafe(a) && AllSafe(b)
  {
    if AllSafe(a + b) {
      assert forall k :: 0 <= k < |a| ==> a[k] == (a + b)[k];
      assert forall k :: 0 <= k < |b| ==> b[k] == (a + b)[|a| + k];
    }
  }

  lemma {:induction false} NormalizeAllSafe(s: string)
    ensures AllSafe(Normalize(s)) <==> forall k :: 0 <= k < |s| ==> AcceptedChar(s[k])
  {
    if s != [] {
      NormalizeAllSafe(s[1..]);
      AllSafeAppend(NormalizeChar(s[0]), Normalize(s[1..]));
      assert forall k :: 1 <= k < |s| ==> s[k] == s[1..][k - 1];
      if !AcceptedChar(s[0]) {
        assert NormalizeChar(s[0])[0] == s[0];
      }
      if forall k :: 1 <= k < |s| ==> AcceptedChar(s[k]) {
        assert forall k :: 0 <= k < |s[1..]| ==> AcceptedChar(s[1..][k]);
      }
    }
  }

  /** After rewriting, the whitelist accepts exactly the non-empty texts made
      of whitelist characters and the three display glyphs. */
  lemma WhitelistAfterNormalize(s: string)
    ensures Whitelisted(Normalize(s)) <==>
              s != [] && forall k :: 0 <= k < |s| ==> AcceptedChar(s[k])
  {
    NormalizeAllSafe(s);
    if s != [] {
      assert Normalize(s)[0] == NormalizeChar(s[0])[0];
    }
  }

  /** A character outside the whitelist and the display glyphs makes evaluation
      fail with an invalid-input error, before any field changes. */
  lemma ForeignCharacterRejected(e: Engine, host: Host, k: nat)
    requires k < |Strip(e.expression)|
    requires !SafeChar(Strip(e.expression)[k]) && Strip(e.expression)[k] !in "×÷%"
    ensures Evaluate(e, host) == Evaluation(e, Failure(Invalid))
  {
    WhitelistAfterNormalize(Strip(e.expression));
    assert Compute(Strip(e.expression), host) == Failure(Invalid);
  }

  // ---------------------------------------------------------------------
  // The engine invariant over keystroke sequences
  // ---------------------------------------------------------------------

  /** The history never exceeds its capacity, and "just evaluated" means the
      buffer is the last result, which heads the history. */
  predicate Valid(e: Engine)
  {
    && |e.history| <= MaxHistory
    && (e.justEvaluated ==>
          e.expression == e.lastResult && |e.history| > 0 && e.history[0].result == e.lastResult)
  }

  /** One engine operation. */
  datatype Op = Key(key: string) | Back | ClearAll | Toggle | Equals

  function Step(e: Engine, op: Op, host: Host): Engine
  {
    match op
    case Key(k) => Input(e, k)
    case Back => Backspace(e)
    case ClearAll => Clear(e)
    case Toggle => ToggleSign(e)
    case Equals => Evaluate(e, host).engine
  }

  function Run(e: Engine, ops: seq<Op>, host: Host): Engine
    decreases |ops|
  {
    if ops == [] then e else Run(Step(e, ops[0], host), ops[1..], host)
  }

  lemma StepPreservesValid(e: Engine, op: Op, host: Host)
    requires Valid(e)
    ensures Valid(Step(e, op, host))
  {
  }

  /** Every operation sequence from a valid engine ends in a valid engine;
      in particular the history never holds more than five entries. */
  lemma {:induction false} RunPreservesValid(e: Engine, ops: seq<Op>, host: Host)
    requires Valid(e)
    ensures Valid(Run(e, ops, host))
    ensures |Run(e, ops, host).history| <= MaxHistory
    decreases |ops|
  {
    if ops != [] {
      StepPreservesValid(e, ops[0], host);
      RunPreservesValid(Step(e, ops[0], host), ops[1..], host);
    }
  }

  lemma InitValid()
    ensures Valid(Init())
  {
  }

  // ---------------------------------------------------------------------
  // Continuation, history and re-evaluation
  // ---------------------------------------------------------------------

  /** A successful evaluation of a non-blank buffer committed the stripped
      text and its computed result. */
  lemma EvaluateSucceeded(e: Engine, host: Host) returns (shown: string, text: string)
    requires Strip(e.expression) != [] && Evaluate(e, host).outcome.Success?
    ensures shown == Strip(e.expression) && Compute(shown, host) == Success(text)
    ensures Evaluate(e, host) == Evaluation(Commit(e, shown, text), Success((shown, text)))
  {
    shown := Strip(e.expression);
    text := Compute(shown, host).value;
  }

  /** Right after a successful `=`, an operator key extends the result and a
      digit starts over. */
  lemma ContinuationAfterEquals(e: Engine, host: Host, op: char, d: char)
    requires Strip(e.expression) != [] && Evaluate(e, host).outcome.Success?
    requires op in ContinuationKeys && IsDigit(d)
    ensures var r := Evaluate(e, host);
            && Input(r.engine, [op]).expression == r.outcome.value.1 + [op]
            && Input(r.engine, [d]).expression == [d]
  {
    var shown, text := EvaluateSucceeded(e, host);
    var c := Commit(e, shown, text);
    assert c.justEvaluated && c.lastResult == text;
    assert !IsDigit(op) by {
      assert op == '+' || op == '-' || op == '×' || op == '÷' || op == '%';
    }
    assert d !in ContinuationKeys;
  }

  /** Outside the just-evaluated state, backspace undoes a typed character. */
  lemma BackspaceUndoesInput(e: Engine, c: char)
    requires !e.justEvaluated
    ensures Backspace(Input(e, [c])) == e
  {
    assert (e.expression + [c])[..|e.expression|] == e.expression;
  }

  /** An empty key right after `=` counts as an operator (the empty string
      occurs in every string), so the buffer becomes the last result. */
  lemma EmptyKeyAfterEquals(e: Engine)
    requires e.justEvaluated
    ensures Input(e, "").expression == e.lastResult
  {
  }

  /** With a full history, a successful evaluation drops exactly the oldest
      entry. */
  lemma FullHistoryEvictsOldest(e: Engine, host: Host)
    requires |e.history| == MaxHistory
    requires Strip(e.expression) != [] && Evaluate(e, host).outcome.Success?
    ensures var r := Evaluate(e, host);
            && |r.engine.history| == MaxHistory
            && r.engine.history[0] == Entry(r.outcome.value.0, r.outcome.value.1)
            && r.engine.history[1..] == e.history[..MaxHistory - 1]
  {
    var shown, text := EvaluateSucceeded(e, host);
    var h := Commit(e, shown, text).history;
    assert forall k :: 0 <= k < MaxHistory - 1 ==> h[1..][k] == e.history[k];
  }

  /** The converse of the evaluation contract: a non-blank buffer whose
      stripped text computes is committed with that result. */
  lemma EvaluateCommits(e: Engine, host: Host, shown: string, text: string)
    requires Strip(e.expression) == shown && shown != []
    requires Compute(shown, host) == Success(text)
    ensures Evaluate(e, host) == Evaluation(Commit(e, shown, text), Success((shown, text)))
  {
  }

  /** The converse of the computation contract: when the text passes the
      whitelist, the host returns a value and it formats, that is the result. */
  lemma ComputeSucceeds(expr: string, host: Host, v: Value, text: string)
    requires Whitelisted(Normalize(expr))
    requires host.eval(Normalize(expr)) == Success(v)
    requires FormatResult(v, host.formatG) == Success(text)
    ensures Compute(expr, host) == Success(text)
  {
  }

  /** Evaluating the text of an integer result again gives the same text and
      records an identical entry, provided the host reads that literal back
      as the same integer. An integer too long for `str` is refused instead,
      and the engine stays as it was. */
  lemma ReevaluateIntegerResult(e: Engine, host: Host, i: int)
    requires e.expression == IntToString(i)
    requires host.eval(IntToString(i)) == Success(IntV(i))
    ensures StrFits(i) ==>
              Evaluate(e, host)
              == Evaluation(Commit(e, e.expression, e.expression), Success((e.expression, e.expression)))
    ensures !StrFits(i) ==> Evaluate(e, host) == Evaluation(e, Failure(Invalid))
  {
    var s := IntToString(i);
    IntTextShape(i);
    StripTrimmed(s);
    NormalizeDigitsAndMinus(s);
    if StrFits(i) {
      ComputeSucceeds(s, host, IntV(i), s);
      EvaluateCommits(e, host, s, s);
    }
  }

  /** An int result whose decimal text would exceed the digit limit makes
      evaluation raise: the user sees invalid input and nothing changes. */
  lemma LongIntResultRefused(e: Engine, host: Host, i: int)
    requires Strip(e.expression) != [] && Whitelisted(Normalize(Strip(e.expression)))
    requires host.eval(Normalize(Strip(e.expression))) == Success(IntV(i))
    requires !StrFits(i)
    ensures Evaluate(e, host) == Evaluation(e, Failure(Invalid))
  {
  }

  /** An infinite or NaN float result makes `int()` raise a value error, so
      evaluation reports invalid input (not division by zero) and nothing
      changes. */
  lemma NonFiniteResultRefused(e: Engine, host: Host, f: Float)
    requires Strip(e.expression) != [] && Whitelisted(Normalize(Strip(e.expression)))
    requires host.eval(Normalize(Strip(e.expression))) == Success(FloatV(f))
    requires !f.Finite?
    ensures Compute(Strip(e.expression), host) == Failure(Invalid)
    ensures Evaluate(e, host) == Evaluation(e, Failure(Invalid))
  {
  }

  /** The text of an integer is digits with perhaps a leading minus sign, so
      it has no whitespace at either end. */
  lemma IntTextShape(i: int)
    ensures forall k :: 0 <= k < |IntToString(i)| ==> IsDigit(IntToString(i)[k]) || IntToString(i)[k] == '-'
    ensures !IsSpace(IntToString(i)[0]) && !IsSpace(IntToString(i)[|IntToString(i)| - 1])
  {
    var s := IntToString(i);
    if i < 0 {
      assert forall k :: 1 <= k < |s| ==> s[k] == s[1..][k - 1];
    }
  }

  lemma {:induction false} NormalizeDigitsAndMinus(s: string)
    requires forall k :: 0 <= k < |s| ==> IsDigit(s[k]) || s[k] == '-'
    ensures Normalize(s) == s
    ensures s != [] ==> Whitelisted(s)
  {
    if s != [] {
      NormalizeDigitsAndMinus(s[1..]);
    }
  }

  /** Re-evaluation is not idempotent: a result whose text carries an exponent
      (as `%.10g` writes 1e+15) is refused by the whitelist the next time. */
  lemma ExponentResultNotReevaluable(e: Engine, host: Host)
    requires Strip(e.expression) != [] && Evaluate(e, host).outcome.Success?
    requires 'e' in Evaluate(e, host).outcome.value.1
    ensures var r := Evaluate(e, host);
            Evaluate(r.engine, host) == Evaluation(r.engine, Failure(Invalid))
  {
    var r := Evaluate(e, host);
    assert r.engine.expression == r.outcome.value.1;
    ExponentRejected(r.engine, host);
  }

  /** A buffer holding the letter `e` anywhere is refused as a whole. */
  lemma ExponentRejected(e: Engine, host: Host)
    requires 'e' in e.expression
    ensures Evaluate(e, host) == Evaluation(e, Failure(Invalid))
  {
    var k :| 0 <= k < |e.expression| && e.expression[k] == 'e';
    var j := StripKeeps(e.expression, k);
    LetterEForeign();
    ForeignCharacterRejected(e, host, j);
  }

  /** The letter `e` is neither a whitelist character nor a display glyph. */
  lemma LetterEForeign()
    ensures !SafeChar('e') && 'e' !in "×÷%"
  {
  }

  // ---------------------------------------------------------------------
  // Worked keystroke scenarios
  // ---------------------------------------------------------------------

  lemma TypedAddition()
    ensures Input(Input(Input(Init(), "2"), "+"), "3") == Engine("2+3", [], "", false)
  {
  }

  lemma NormalizeAddition()
    ensures Normalize("2+3") == "2+3" && Whitelisted("2+3")
  {
    NormalizeDigitsAndMinus("3");
    assert Normalize("+3") == NormalizeChar('+') + Normalize("3");
    assert Normalize("2+3") == NormalizeChar('2') + Normalize("+3");
  }

  /** `2 + 3 =` shows `2+3` and `5`. */
  lemma ScenarioAddition(host: Host)
    requires host.eval("2+3") == Success(IntV(5))
    ensures var e := Input(Input(Input(Init(), "2"), "+"), "3");
            Evaluate(e, host).outcome == Success(("2+3", "5"))
  {
    TypedAddition();
    var e := Engine("2+3", [], "", false);
    StripTrimmed("2+3");
    NormalizeAddition();
    assert IntToString(5) == "5";
    ComputeSucceeds("2+3", host, IntV(5), "5");
    EvaluateCommits(e, host, "2+3", "5");
  }

  lemma TypedDivision()
    ensures Input(Input(Input(Input(Init(), "1"), "0"), "÷"), "0") == Engine("10÷0", [], "", false)
  {
  }

  lemma NormalizeDivision()
    ensures Normalize("10÷0") == "10/0" && Whitelisted("10/0")
  {
    NormalizeDigitsAndMinus("0");
    assert Normalize("÷0") == NormalizeChar('÷') + Normalize("0");
    assert Normalize("0÷0") == NormalizeChar('0') + Normalize("÷0");
    assert Normalize("10÷0") == NormalizeChar('1') + Normalize("0÷0");
  }

  /** `10 ÷ 0 =` raises division by zero and leaves the buffer as typed. */
  lemma ScenarioDivisionByZero(host: Host)
    requires host.eval("10/0") == Failure(ZeroDivision)
    ensures var e := Input(Input(Input(Input(Init(), "1"), "0"), "÷"), "0");
            && Evaluate(e, host).outcome == Failure(ZeroDivision)
            && Evaluate(e, host).engine.expression == "10÷0"
  {
    TypedDivision();
    StripTrimmed("10÷0");
    NormalizeDivision();
    assert Compute("10÷0", host) == Failure(ZeroDivision);
  }

  lemma NormalizeProduct()
    ensures Normalize("7×3") == "7*3" && Whitelisted("7*3")
  {
    NormalizeDigitsAndMinus("3");
    assert Normalize("×3") == NormalizeChar('×') + Normalize("3");
    assert Normalize("7×3") == NormalizeChar('7') + Normalize("×3");
  }

  lemma ComputeSeven(host: Host)
    requires host.eval("7") == Success(IntV(7))
    ensures Compute("7", host) == Success("7")
  {
    NormalizeDigitsAndMinus("7");
    assert IntToString(7) == "7";
    ComputeSucceeds("7", host, IntV(7), "7");
  }

  /** Typing `7` and `=`: the result 7 is committed. */
  lemma EvaluateSeven(host: Host)
    requires host.eval("7") == Success(IntV(7))
    ensures Evaluate(Input(Init(), "7"), host)
            == Evaluation(Engine("7", [Entry("7", "7")], "7", true), Success(("7", "7")))
  {
    var e1 := Input(Init(), "7");
    assert e1 == Engine("7", [], "", false);
    StripTrimmed("7");
    ComputeSeven(host);
    EvaluateCommits(e1, host, "7", "7");
    assert PushHistory([], Entry("7", "7")) == [Entry("7", "7")];
  }

  lemma TypedProductAfterSeven()
    ensures Input(Input(Engine("7", [Entry("7", "7")], "7", true), "×"), "3")
            == Engine("7×3", [Entry("7", "7")], "7", false)
  {
    SingleCharSubstring('×', ContinuationKeys);
  }

  lemma ComputeProduct(host: Host)
    requires host.eval("7*3") == Success(IntV(21))
    ensures Compute("7×3", host) == Success("21")
  {
    NormalizeProduct();
    assert IntToString(21) == "21";
    ComputeSucceeds("7×3", host, IntV(21), "21");
  }

  /** Pressing `=` on `7×3` after `7 =` returns (`7×3`, `21`). */
  lemma EvaluateProduct(host: Host)
    requires host.eval("7*3") == Success(IntV(21))
    ensures Evaluate(Engine("7×3", [Entry("7", "7")], "7", false), host).outcome == Success(("7×3", "21"))
  {
    var e2 := Engine("7×3", [Entry("7", "7")], "7", false);
    StripTrimmed("7×3");
    ComputeProduct(host);
    EvaluateCommits(e2, host, "7×3", "21");
  }

  /** `7 =` then `× 3 =` continues from the result: `7×3` and `21`. */
  lemma ScenarioContinuation(host: Host)
    requires host.eval("7") == Success(IntV(7))
    requires host.eval("7*3") == Success(IntV(21))
    ensures var r1 := Evaluate(Input(Init(), "7"), host);
            && r1.outcome == Success(("7", "7"))
            && Evaluate(Input(Input(r1.engine, "×"), "3"), host).outcome == Success(("7×3", "21"))
  {
    EvaluateSeven(host);
    TypedProductAfterSeven();
    EvaluateProduct(host);
  }
}
