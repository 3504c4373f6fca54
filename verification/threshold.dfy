/**
  Resolution of the staleness threshold handed to the storage listing: a
  positive numeric override typed after the command wins, else the
  configured `clean_interval`, and if that is "empty" in PHP's sense the
  fallback of one day.
*/
module Threshold {
  import opened Wrappers
  import opened PhpText
  import opened PhpNumeric

  /** The PHP values a configuration entry can hold in this model. */
  datatype PhpValue = Null | Bool(b: bool) | Int(i: int) | Str(s: string)

  /** PHP's `empty()`: null, false, 0, "" and "0". */
  predicate Empty(v: PhpValue) {
    match v
    case Null => true
    case Bool(b) => !b
    case Int(i) => i == 0
    case Str(s) => |s| == 0 || (|s| == 1 && s[0] == '0')
  }

  /** 86400 seconds, one day. */
  const FallbackInterval: int := 86400

  /**
    The override carried by the command message: its trimmed text when that
    text is numeric and greater than zero. No message, no override. Stated
    against the numeric-string grammar: an override exists exactly when the
    trimmed text is a positive literal with whitespace around it.
  */
  function Override(message: Option<string>): (o: Option<string>)
    ensures o.Some? <==> message.Some? &&
                         exists w1, l, w2 :: PositiveLiteral(Trim(message.value, TrimChars), w1, l, w2)
    ensures o.Some? ==> o.value == Trim(message.value, TrimChars)
  {
    if message.None? then None
    else
      var text := Trim(message.value, TrimChars);
      PositiveNumericIsLiteral(text);
      if IsNumeric(text) && PositiveNumeric(text) then Some(text) else None
  }

  /** A positive numeric text is never "empty" to PHP. */
  lemma PositiveTextIsNotEmpty(t: string)
    requires IsNumeric(t) && PositiveNumeric(t)
    ensures !Empty(Str(t))
  {
    PositiveIsNotEmptyString(t);
  }

  /** The interval `execute()` passes to the storage listing. */
  function ResolveInterval(message: Option<string>, config: PhpValue): (r: PhpValue)
    ensures !Empty(r)
    ensures Override(message).Some? ==> r == Str(Override(message).value)
    ensures Override(message).None? && !Empty(config) ==> r == config
    ensures Override(message).None? && Empty(config) ==> r == Int(FallbackInterval)
  {
    var o := Override(message);
    var interval := if o.Some? then (PositiveNumericIsLiteral(o.value); PositiveTextIsNotEmpty(o.value); Str(o.value)) else config;
    if Empty(interval) then Int(FallbackInterval) else interval
  }

  /** A message made only of digits that are not all zero overrides any configuration. */
  lemma DigitOverrideWins(digits: string, config: PhpValue)
    requires |digits| > 0 && AllDigits(digits) && HasNonZeroDigit(digits)
    ensures ResolveInterval(Some(digits), config) == Str(digits)
  {
    assert IsDigit(digits[0]) && IsDigit(digits[|digits| - 1]);
    TrimUntouched(digits, TrimChars);
    DigitsAreNumeric(digits);
  }

  /** "0", or any run of zeros, is not an override: the configuration decides. */
  lemma ZeroDoesNotOverride(zeros: string, config: PhpValue)
    requires |zeros| > 0 && forall i :: 0 <= i < |zeros| ==> zeros[i] == '0'
    ensures ResolveInterval(Some(zeros), config) == ResolveInterval(None, config)
  {
    assert zeros[0] == '0' && zeros[|zeros| - 1] == '0';
    TrimUntouched(zeros, TrimChars);
    assert AllDigits(zeros) by {
      forall i | 0 <= i < |zeros| ensures IsDigit(zeros[i]) { assert zeros[i] == '0'; }
    }
    DigitsAreNumeric(zeros);
  }
}
