/**
 The calculator's keystroke engine: an expression buffer, the last committed
 result, a "just evaluated" flag and a front-inserted history of at most five
 (expression, result) pairs. Every operation is a pure transition on an
 immutable `Engine` value.

 Arithmetic itself is not part of the engine: the source hands the sanitised
 text to the host language's expression evaluator. Here that evaluator, and
 the ten-significant-digit float formatter, are the fields of a `Host` value
 that every evaluation is parameterised by.
 */
module CalcEngine {
  import opened Wrappers
  import opened PyStr

  /** Capacity of the history list. */
  const MaxHistory := 5

  /** The keys that, typed right after `=`, continue from the last result. */
  const ContinuationKeys := "+-×÷%"

  datatype Entry = Entry(expression: string, result: string)

  datatype Engine = Engine(
    expression: string,
    history: seq<Entry>,   // newest first
    lastResult: string,
    justEvaluated: bool)

  /** What an evaluation can raise: division by zero, or anything else (a
      rejected character, a syntax error, an overflow) that the user sees as
      invalid input. */
  datatype CalcError = ZeroDivision | Invalid

  /** A floating-point value as far as the formatter can tell them apart. */
  datatype Float = Finite(x: real) | Infinity(negative: bool) | NaN

  /** What evaluating the whitelisted text can return: an int, a float, or
      an object of some other type together with the text `str` gives it. The
      character set admits digits, points, arithmetic and parentheses, and
      those already build other objects: `()` is the empty tuple, `...` is
      `Ellipsis`, and a fractional power of a negative number such as
      `(-1)**.5` is a complex number. */
  datatype Value = IntV(i: int) | FloatV(f: Float) | Other(text: string)

  /** The host's expression evaluator and its `%.10g` float formatter. */
  datatype Host = Host(eval: string -> Result<Value, CalcError>, formatG: real -> string)

  /** The engine right after construction. */
  function Init(): (e: Engine)
    ensures e.expression == [] && e.lastResult == [] && e.history == [] && !e.justEvaluated
  {
    Engine("", [], "", false)
  }

  /** Python's `s in t` for strings: `s` occurs contiguously in `t`. */
  predicate IsSubstring(s: string, t: string)
    decreases |t|
  {
    (|s| <= |t| && t[..|s|] == s) || (t != [] && IsSubstring(s, t[1..]))
  }

  lemma {:induction false} SingleCharSubstring(c: char, t: string)
    ensures IsSubstring([c], t) <==> c in t
    decreases |t|
  {
    if t != [] {
      SingleCharSubstring(c, t[1..]);
      assert t == [t[0]] + t[1..];
    }
  }

  /** `input(char)`: after `=`, an operator key continues from the last result
      and any other key starts a new expression; otherwise the key is appended. */
  function Input(e: Engine, key: string): (r: Engine)
    ensures r.history == e.history && r.lastResult == e.lastResult && !r.justEvaluated
    ensures !e.justEvaluated ==> r.expression == e.expression + key
    ensures e.justEvaluated && |key| == 1 && key[0] in ContinuationKeys ==>
              r.expression == e.lastResult + key
    ensures e.justEvaluated && |key| == 1 && key[0] !in ContinuationKeys ==>
              r.expression == key
  {
    if e.justEvaluated then
      SingleCharSubstring(if |key| == 1 then key[0] else ' ', ContinuationKeys);
      if IsSubstring(key, ContinuationKeys) then
        e.(expression := e.lastResult + key, justEvaluated := false)
      else
        e.(expression := key, justEvaluated := false)
    else
      e.(expression := e.expression + key)
  }

  /** `backspace()`: drop the last character (nothing on an empty buffer). */
  function Backspace(e: Engine): (r: Engine)
    ensures r.history == e.history && r.lastResult == e.lastResult && !r.justEvaluated
    ensures e.expression == [] ==> r.expression == []
    ensures e.expression != [] ==>
              r.expression + [e.expression[|e.expression| - 1]] == e.expression
  {
    var s := e.expression;
    e.(expression := if s == [] then s else s[..|s| - 1], justEvaluated := false)
  }

  /** `clear()`: empty buffer and last result; the history is kept. */
  function Clear(e: Engine): (r: Engine)
    ensures r.expression == [] && r.lastResult == [] && !r.justEvaluated
    ensures r.history == e.history
  {
    Engine("", e.history, "", false)
  }

  // ---------------------------------------------------------------------
  // Sign toggle: the regular expression `(-?\d+\.?\d*)$` searched in the buffer
  // ---------------------------------------------------------------------

  /** Digits and decimal points, at most one point in all (none at all once
      `pointSeen`). */
  predicate DigitsAndPoint(t: string, pointSeen: bool)
    decreases |t|
  {
    || t == []
    || (IsDigit(t[0]) && DigitsAndPoint(t[1..], pointSeen))
    || (t[0] == '.' && !pointSeen && DigitsAndPoint(t[1..], true))
  }

  /** The text `\d+\.?\d*` matches in full: a digit, then digits with at most
      one decimal point. */
  predicate IsUnsignedNumber(t: string)
  {
    |t| > 0 && IsDigit(t[0]) && DigitsAndPoint(t[1..], false)
  }

  /** The text `-?\d+\.?\d*` matches in full. */
  predicate IsNumber(t: string)
  {
    IsUnsignedNumber(t) || (|t| > 0 && t[0] == '-' && IsUnsignedNumber(t[1..]))
  }

  /** A number matches the whole of `b` from position `j` on. */
  predicate NumberAt(b: string, j: nat)
  {
    j <= |b| && IsNumber(b[j..])
  }

  /** Where `$` may end a match: at the very end, or just before one final
      newline. A number never contains a newline, so only the text before that
      newline can hold the match. */
  function MatchArea(s: string): (b: string)
    ensures |s| - 1 <= |b| <= |s| && b == s[..|b|]
    ensures |b| < |s| <==> s != [] && s[|s| - 1] == '\n'
  {
    if s != [] && s[|s| - 1] == '\n' then s[..|s| - 1] else s
  }

  /** Leftmost-first search from position `i`: the first start position whose
      remaining text is a number. */
  function SearchFrom(b: string, i: nat): (r: Option<nat>)
    requires i <= |b|
    ensures r.Some? ==> i <= r.value <= |b| && NumberAt(b, r.value)
    ensures r.Some? ==> forall j :: i <= j < r.value ==> !NumberAt(b, j)
    ensures r.None? ==> forall j :: i <= j <= |b| ==> !NumberAt(b, j)
    decreases |b| - i
  {
    if NumberAt(b, i) then Some(i)
    else if i == |b| then None
    else SearchFrom(b, i + 1)
  }

  /** `re.search(r"(-?\d+\.?\d*)$", s).start()`, if there is a match. */
  function TrailingNumber(s: string): (r: Option<nat>)
    ensures r.Some? ==> r.value <= |MatchArea(s)| && NumberAt(MatchArea(s), r.value)
    ensures r.Some? ==> forall j :: 0 <= j < r.value ==> !NumberAt(MatchArea(s), j)
    ensures r.None? ==> forall j :: 0 <= j <= |MatchArea(s)| ==> !NumberAt(MatchArea(s), j)
  {
    SearchFrom(MatchArea(s), 0)
  }

  /** The matched number with its sign flipped. */
  function FlipSign(num: string): string
  {
    if num != [] && num[0] == '-' then num[1..] else "-" + num
  }

  /** The buffer after the sign toggle: the trailing number, if there is
      one, with its sign flipped; the text before it kept. */
  function ToggleText(s: string): (r: string)
    ensures TrailingNumber(s).None? ==> r == s
    ensures TrailingNumber(s).Some? ==>
              var i := TrailingNumber(s).value;
              var num := MatchArea(s)[i..];
              && i <= |r| && i <= |s|
              && r[..i] == s[..i]
              && (IsUnsignedNumber(num) ==> r[i..] == "-" + num)
              && (!IsUnsignedNumber(num) ==> "-" + r[i..] == num)
  {
    if s == [] then s
    else
      match TrailingNumber(s)
      case None => s
      case Some(i) =>
        var b := MatchArea(s);
        b[..i] + FlipSign(b[i..])
  }

  /** `toggle_sign()`: clears the "just evaluated" flag and rewrites the
      trailing number; the history and the last result stay. */
  function ToggleSign(e: Engine): (r: Engine)
    ensures r.history == e.history && r.lastResult == e.lastResult && !r.justEvaluated
    ensures r.expression == ToggleText(e.expression)
  {
    e.(expression := ToggleText(e.expression), justEvaluated := false)
  }

  // ---------------------------------------------------------------------
  // Evaluation
  // ---------------------------------------------------------------------

  /** The host-operator text for one display character: `×` to `*`, `÷` to
      `/`, `%` to `/100`, anything else kept. */
  function NormalizeChar(c: char): string
  {
    match c
    case '×' => "*"
    case '÷' => "/"
    case '%' => "/100"
    case _ => [c]
  }

  /** Display glyphs rewritten to host operators, in one pass. */
  function Normalize(s: string): string
  {
    if s == [] then [] else NormalizeChar(s[0]) + Normalize(s[1..])
  }

  // A character of the whitelist class: a digit, whitespace, + - * / . ( )
  predicate SafeChar(c: char)
  {
    IsDigit(c) || IsSpace(c) || c in "+-*/.()"
  }

  predicate AllSafe(s: string)
  {
    forall k :: 0 <= k < |s| ==> SafeChar(s[k])
  }

  // The whole of `s` matches the whitelist class repeated once or more
  predicate Whitelisted(s: string)
  {
    s != [] && AllSafe(s)
  }

  predicate IsIntegral(x: real)
  {
    x == x.Floor as real
  }

  function Abs(x: real): real
  {
    if x < 0.0 then -x else x
  }

  /** The result text: an integral float below 1e15 in magnitude as the
      integer's digits, any other finite float through `%.10g`, an int or any
      other object through `str`. `int()` of an infinity or a NaN raises, and
      so does `str` of an int with more than `MaxStrDigits` digits. */
  function FormatResult(v: Value, formatG: real -> string): (r: Result<string, CalcError>)
    ensures v.IntV? && StrFits(v.i) ==> r == Success(IntToString(v.i))
    ensures v.IntV? && !StrFits(v.i) ==> r == Failure(Invalid)
    ensures v.Other? ==> r == Success(v.text)
    ensures v.FloatV? && v.f.Finite? && IsIntegral(v.f.x) && Abs(v.f.x) < 1000000000000000.0 ==>
              r == Success(IntToString(v.f.x.Floor)) && ParseInt(r.value) as real == v.f.x
    ensures v.FloatV? && v.f.Finite? && !(IsIntegral(v.f.x) && Abs(v.f.x) < 1000000000000000.0) ==>
              r == Success(formatG(v.f.x))
    ensures v.FloatV? && !v.f.Finite? ==> r == Failure(Invalid)
  {
    match v
    case IntV(i) => if StrFits(i) then Success(IntToString(i)) else Failure(Invalid)
    case Other(text) => Success(text)
    case FloatV(f) =>
      match f
      case Finite(x) =>
        if IsIntegral(x) && Abs(x) < 1000000000000000.0 then
          IntToStringRoundTrip(x.Floor);
          Success(IntToString(x.Floor))
        else Success(formatG(x))
      case _ => Failure(Invalid)
  }

  /** The history after recording `entry`: inserted at the front, cut to
      `MaxHistory` entries. */
  function PushHistory(h: seq<Entry>, entry: Entry): (r: seq<Entry>)
    ensures |r| == Min(|h| + 1, MaxHistory)
    ensures r[0] == entry
    ensures forall k :: 1 <= k < |r| ==> r[k] == h[k - 1]
  {
    ([entry] + h)[..Min(|h| + 1, MaxHistory)]
  }

  /** The result text for an already stripped, non-blank expression: rewrite
      the glyphs, reject characters outside the whitelist, evaluate, format. */
  function Compute(expr: string, host: Host): (r: Result<string, CalcError>)
    ensures !Whitelisted(Normalize(expr)) ==> r == Failure(Invalid)
    ensures Whitelisted(Normalize(expr)) && host.eval(Normalize(expr)).Failure? ==>
              r == Failure(host.eval(Normalize(expr)).error)
    ensures r.Success? ==>
              && Whitelisted(Normalize(expr))
              && host.eval(Normalize(expr)).Success?
              && FormatResult(host.eval(Normalize(expr)).value, host.formatG) == r
    ensures Whitelisted(Normalize(expr)) && host.eval(Normalize(expr)).Success? ==>
              r == FormatResult(host.eval(Normalize(expr)).value, host.formatG)
  {
    var safe := Normalize(expr);
    if !Whitelisted(safe) then Failure(Invalid)
    else
      match host.eval(safe)
      case Failure(err) => Failure(err)
      case Success(v) => FormatResult(v, host.formatG)
  }

  /** The engine after committing `text` as the result of `shown`. */
  function Commit(e: Engine, shown: string, text: string): (r: Engine)
    ensures r.expression == text && r.lastResult == text && r.justEvaluated
    ensures |r.history| == Min(|e.history| + 1, MaxHistory)
    ensures r.history[0] == Entry(shown, text)
    ensures forall k :: 1 <= k < |r.history| ==> r.history[k] == e.history[k - 1]
  {
    Engine(text, PushHistory(e.history, Entry(shown, text)), text, true)
  }

  /** The engine after an evaluation, and what `evaluate()` returned or raised. */
  datatype Evaluation = Evaluation(engine: Engine, outcome: Result<(string, string), CalcError>)

  /** `evaluate()`: strip; nothing to do on a blank buffer; otherwise compute
      the result text and record it. An error leaves every field as it was. */
  function Evaluate(e: Engine, host: Host): (r: Evaluation)
    ensures Strip(e.expression) == [] ==> r == Evaluation(e, Success(("", "")))
    ensures Strip(e.expression) != [] && Compute(Strip(e.expression), host).Failure? ==>
              r == Evaluation(e, Failure(Compute(Strip(e.expression), host).error))
    ensures Strip(e.expression) != [] && Compute(Strip(e.expression), host).Success? ==>
              var shown := Strip(e.expression);
              var text := Compute(shown, host).value;
              r == Evaluation(Commit(e, shown, text), Success((shown, text)))
  {
    var expr := Strip(e.expression);
    if expr == [] then Evaluation(e, Success(("", "")))
    else
      match Compute(expr, host)
      case Failure(err) => Evaluation(e, Failure(err))
      case Success(text) => Evaluation(Commit(e, expr, text), Success((expr, text)))
  }
}
