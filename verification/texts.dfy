/**
  The texts and the markup the clean command produces: the recreate
  keyboard attached to an emptied game message, the "Executing..." notice
  and the final summary. `PHP_EOL` is taken to be "\n".
*/
module Texts {
  import opened Wrappers
  import opened PhpText

  /** The code of a game, e.g. "tictactoe"; part of every callback of its keyboard. */
  type GameCode = string

  datatype Button = Button(text: string, callbackData: string)

  /** An inline keyboard: rows of buttons. */
  type Keyboard = seq<seq<Button>>

  const CreateLabel: string := "Create"
  const NewAction: string := "new"

  /**
    A decoder for the button's callback data, defined here only to state its
    round trip: the game code up to the first ';', then the action. No ';',
    no split.
  */
  function SplitCallback(data: string): (r: Option<(string, string)>)
    ensures r.Some? ==> ';' !in r.value.0 && data == r.value.0 + ";" + r.value.1
    ensures r.None? <==> ';' !in data
  {
    if data == [] then None
    else if data[0] == ';' then Some(([], data[1..]))
    else match SplitCallback(data[1..]) {
      case None => None
      case Some(p) =>
        assert data == [data[0]] + data[1..];
        Some(([data[0]] + p.0, p.1))
    }
  }

  /** A code without ';' and an action are read back from "code;action". */
  lemma {:induction false} SplitCallbackOf(code: string, action: string)
    requires ';' !in code
    ensures SplitCallback(code + ";" + action) == Some((code, action))
  {
    var data := code + ";" + action;
    if code != [] {
      assert data[0] == code[0] && data[1..] == code[1..] + ";" + action;
      SplitCallbackOf(code[1..], action);
      assert [code[0]] + code[1..] == code;
    } else {
      assert data == ";" + action;
    }
  }

  lemma NewCallbackOf(code: GameCode)
    ensures ';' !in code ==> SplitCallback(code + ";" + NewAction) == Some((code, NewAction))
  {
    if ';' !in code {
      SplitCallbackOf(code, NewAction);
    }
  }

  /**
    `createInlineKeyboard($game_code)`: one row holding one "Create" button
    whose callback starts the game anew.
  */
  function RecreateKeyboard(code: GameCode): (k: Keyboard)
    ensures |k| == 1 && |k[0]| == 1 && k[0][0].text == CreateLabel
    ensures ';' !in code ==> SplitCallback(k[0][0].callbackData) == Some((code, NewAction))
  {
    NewCallbackOf(code);
    [[Button(CreateLabel, code + ";" + NewAction)]]
  }

  /** Different game codes get different keyboards. */
  lemma RecreateKeyboardInjective(a: GameCode, b: GameCode)
    requires RecreateKeyboard(a) == RecreateKeyboard(b)
    ensures a == b
  {
    var da := a + ";" + NewAction;
    var db := b + ";" + NewAction;
    assert da == db;
    assert |a| == |b|;
    assert a == da[..|a|] && b == db[..|b|];
  }

  const ExecutingPrefix: string := "Executing... (time limit: "
  const ExecutingSuffix: string := " seconds)"

  /** The notice sent before the sweep starts. */
  function ExecutingText(timelimit: int): (r: string)
    ensures |r| > |ExecutingPrefix| + |ExecutingSuffix|
    ensures r[..|ExecutingPrefix|] == ExecutingPrefix && r[|r| - |ExecutingSuffix|..] == ExecutingSuffix
  {
    var n := IntToString(timelimit);
    var r := ExecutingPrefix + (n + ExecutingSuffix);
    assert r[..|ExecutingPrefix|] == ExecutingPrefix;
    assert r[|r| - |ExecutingSuffix|..] == ExecutingSuffix;
    r
  }

  /** The notice names the time limit unambiguously. */
  lemma ExecutingTextInjective(a: int, b: int)
    requires ExecutingText(a) == ExecutingText(b)
    ensures a == b
  {
    var na := IntToString(a);
    var nb := IntToString(b);
    var p := |ExecutingPrefix|;
    assert ExecutingText(a)[p..p + |na|] == na;
    assert |na| == |nb|;
    assert ExecutingText(b)[p..p + |nb|] == nb;
    IntToStringRoundTrip(a);
    IntToStringRoundTrip(b);
  }

  // The summary, as four labelled fields.
  const CleanedLabel: string := "Cleaned "
  const EditedLabel: string := " games, edited "
  const ErroredLabel: string := " messages, "
  const RemovedLabel: string := " errored.\nRemoved "
  const SummaryEnd: string := " temporary files."

  /** The four numbers the summary reports, in the order it reports them. */
  datatype Summary = Summary(cleaned: nat, edited: nat, errored: nat, removed: nat)

  /** The reply sent after the sweep. */
  function SummaryText(t: Summary): string {
    CleanedLabel + (NatToString(t.cleaned) +
    (EditedLabel + (NatToString(t.edited) +
    (ErroredLabel + (NatToString(t.errored) +
    (RemovedLabel + (NatToString(t.removed) + SummaryEnd)))))))
  }

  /** Reads `tag` then a decimal number; returns the number and the rest. */
  function ReadField(s: string, tag: string): Option<(nat, string)>
  {
    if |tag| <= |s| && s[..|tag|] == tag then
      var t := s[|tag|..];
      var k := DigitRun(t);
      if k == 0 then None else Some((ParseNat(t[..k]), t[k..]))
    else None
  }

  lemma ReadFieldOf(tag: string, n: nat, rest: string)
    requires rest == [] || !IsDigit(rest[0])
    ensures ReadField(tag + (NatToString(n) + rest), tag) == Some((n, rest))
  {
    var s := tag + (NatToString(n) + rest);
    assert s[..|tag|] == tag;
    assert s[|tag|..] == NatToString(n) + rest;
    DigitRunOf(NatToString(n), rest);
    ParseNatOfNatToString(n);
    assert (NatToString(n) + rest)[..|NatToString(n)|] == NatToString(n);
    assert (NatToString(n) + rest)[|NatToString(n)|..] == rest;
  }

  /** Reads the four numbers of a summary back. */
  function ParseSummary(s: string): Option<Summary> {
    match ReadField(s, CleanedLabel)
    case None => None
    case Some(f1) =>
      match ReadField(f1.1, EditedLabel)
      case None => None
      case Some(f2) =>
        match ReadField(f2.1, ErroredLabel)
        case None => None
        case Some(f3) =>
          match ReadField(f3.1, RemovedLabel)
          case None => None
          case Some(f4) =>
            if f4.1 == SummaryEnd then Some(Summary(f1.0, f2.0, f3.0, f4.0)) else None
  }

  /** The summary reports exactly the four counts, in order. */
  lemma SummaryRoundTrip(t: Summary)
    ensures ParseSummary(SummaryText(t)) == Some(t)
  {
    var r4 := SummaryEnd;
    var r3 := RemovedLabel + (NatToString(t.removed) + r4);
    var r2 := ErroredLabel + (NatToString(t.errored) + r3);
    var r1 := EditedLabel + (NatToString(t.edited) + r2);
    ReadFieldOf(CleanedLabel, t.cleaned, r1);
    ReadFieldOf(EditedLabel, t.edited, r2);
    ReadFieldOf(ErroredLabel, t.errored, r3);
    ReadFieldOf(RemovedLabel, t.removed, r4);
  }

  /** Different counts give different summaries. */
  lemma SummaryInjective(a: Summary, b: Summary)
    requires SummaryText(a) == SummaryText(b)
    ensures a == b
  {
    SummaryRoundTrip(a);
    SummaryRoundTrip(b);
  }
}
