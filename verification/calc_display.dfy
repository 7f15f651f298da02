/**
 The calculator window's two pieces of logic outside the engine: the live
 result preview shown while typing, and the keyboard map from pressed keys to
 the characters fed to the engine.
 */
module CalcDisplay {
  import opened Wrappers
  import opened PyStr
  import opened CalcEngine

  /** The result line shown for the current buffer. An empty buffer shows 0.
      Otherwise the buffer is rewritten and checked against the whitelist
      exactly as evaluation does, but it is not stripped first. Every error,
      `str` of an overlong int included, shows as an empty line. An integral float is turned into an int, and
      the int is then still formatted with `%.10g`, so every finite float is
      shown through `%.10g`. */
  function Preview(expr: string, host: Host): (r: string)
    ensures expr == [] ==> r == "0"
    ensures expr != [] && !Whitelisted(Normalize(expr)) ==> r == ""
    ensures expr != [] && Whitelisted(Normalize(expr)) && host.eval(Normalize(expr)).Failure? ==> r == ""
    ensures expr != [] && Whitelisted(Normalize(expr)) && host.eval(Normalize(expr)).Success? ==>
              var v := host.eval(Normalize(expr)).value;
              && (v.IntV? ==> r == if StrFits(v.i) then IntToString(v.i) else "")
              && (v.Other? ==> r == v.text)
              && (v.FloatV? && v.f.Finite? ==> r == host.formatG(v.f.x))
              && (v.FloatV? && !v.f.Finite? ==> r == "")
  {
    if expr == [] then "0"
    else
      var safe := Normalize(expr);
      if !Whitelisted(safe) then ""
      else
        match host.eval(safe)
        case Failure(_) => ""
        case Success(v) =>
          match v
          case IntV(i) => if StrFits(i) then IntToString(i) else ""
          case Other(text) => text
          case FloatV(f) =>
            match f
            case Finite(x) => host.formatG(x)
            case _ => ""
  }

  /** Whenever evaluating a non-empty text would raise, the preview of that
      text is blank. */
  lemma PreviewBlankWhenComputeFails(expr: string, host: Host)
    requires expr != [] && Compute(expr, host).Failure?
    ensures Preview(expr, host) == ""
  {
  }

  /** For an int or a value of another type, the preview is the text
      evaluation commits; an int too long for `str` fails evaluation and
      blanks the preview. */
  lemma PreviewMatchesCommitForExactValues(expr: string, host: Host, v: Value)
    requires expr != [] && Whitelisted(Normalize(expr))
    requires host.eval(Normalize(expr)) == Success(v) && (v.IntV? || v.Other?)
    ensures v.Other? || StrFits(v.i) ==> Compute(expr, host) == Success(Preview(expr, host))
    ensures v.IntV? && !StrFits(v.i) ==> Compute(expr, host) == Failure(Invalid) && Preview(expr, host) == ""
  {
  }

  /** For an integral float below 1e15 the two lines differ in kind: the
      committed text is the integer's digits, the preview is `%.10g` of the
      same number. */
  lemma PreviewOfIntegralFloat(expr: string, host: Host, x: real)
    requires expr != [] && Whitelisted(Normalize(expr))
    requires host.eval(Normalize(expr)) == Success(FloatV(Finite(x)))
    requires IsIntegral(x) && Abs(x) < 1000000000000000.0
    ensures Preview(expr, host) == host.formatG(x)
    ensures Compute(expr, host) == Success(IntToString(x.Floor))
  {
  }

  /** The `=` button: a successful evaluation commits as the engine does; a
      failed one shows its message and then clears the engine, so the buffer
      and the last result are emptied while the history stays. */
  function PressEquals(e: Engine, host: Host): (r: Engine)
    ensures Evaluate(e, host).outcome.Success? ==> r == Evaluate(e, host).engine
    ensures Evaluate(e, host).outcome.Failure? ==>
              r.expression == [] && r.lastResult == [] && !r.justEvaluated && r.history == e.history
  {
    var ev := Evaluate(e, host);
    if ev.outcome.Success? then ev.engine else Clear(e)
  }

  /** After a failed `=` the window has lost the typed text: pressing `=`
      on a division by zero leaves an empty buffer, not the text as typed. */
  lemma FailedEqualsClears(e: Engine, host: Host)
    requires Strip(e.expression) != [] && Compute(Strip(e.expression), host).Failure?
    ensures PressEquals(e, host).expression == []
    ensures PressEquals(e, host).history == e.history
    ensures Evaluate(e, host).engine == e
  {
  }

  /** The keys bound on the keyboard and the character each one types. */
  const KeyMap: map<char, char> := map[
    '0' := '0', '1' := '1', '2' := '2', '3' := '3', '4' := '4',
    '5' := '5', '6' := '6', '7' := '7', '8' := '8', '9' := '9',
    '+' := '+', '-' := '-', '*' := '×', '/' := '÷',
    '.' := '.', '%' := '%'
  ]

  /** The engine after a key press: a bound key types its character, any
      other key is ignored. */
  function PressKey(e: Engine, key: char): (r: Engine)
    ensures key !in KeyMap ==> r == e
    ensures key in KeyMap ==> r.history == e.history && r.lastResult == e.lastResult && !r.justEvaluated
    ensures key in KeyMap && !e.justEvaluated ==> r.expression == e.expression + [KeyMap[key]]
    ensures key in KeyMap && e.justEvaluated && KeyMap[key] in ContinuationKeys ==>
              r.expression == e.lastResult + [KeyMap[key]]
    ensures key in KeyMap && e.justEvaluated && KeyMap[key] !in ContinuationKeys ==>
              r.expression == [KeyMap[key]]
  {
    if key in KeyMap then Input(e, [KeyMap[key]]) else e
  }

  /** Distinct keys type distinct characters. */
  lemma KeyMapInjective(a: char, b: char)
    requires a in KeyMap && b in KeyMap && KeyMap[a] == KeyMap[b]
    ensures a == b
  {
  }

  /** The glyph rewrite undoes the keyboard map for every key but `%`: what a
      key types is rewritten back to that key before evaluation. */
  lemma NormalizeUndoesKeyMap(key: char)
    requires key in KeyMap && key != '%'
    ensures Normalize([KeyMap[key]]) == [key]
  {
  }

  /** The `%` key types `%`, which evaluation reads as a division by 100. */
  lemma PercentKeyDividesByHundred()
    ensures Normalize([KeyMap['%']]) == "/100"
  {
  }
}
