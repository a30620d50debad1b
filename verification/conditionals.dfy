/** Branch selection in `_parse_conditionals`: for one `if` chain, the text
    of the branch whose condition holds. Conditions are evaluated by code
    outside this model (`evaluate_condition`), so the evaluation is a
    parameter, with the data already fixed. */
module Conditionals {
  import opened Wrappers

  /** One `if ... elseif ... else ... endif` chain as the conditional pattern
      sees it: the condition and text of `if`, the `elseif` branches in
      order, and the text of `else` when there is one. */
  datatype Chain = Chain(cond: string, ifBody: string, elseifs: seq<(string, string)>, elseBody: Option<string>)

  type Eval = string -> bool

  /** The text of `else`, or nothing. */
  function Fallback(ch: Chain): string {
    if ch.elseBody.Some? then ch.elseBody.value else ""
  }

  // ---------------------------------------------------------------------
  // The intended selection

  /** The text of the first of `branches` whose condition holds, or `fallback`. */
  function FirstTrue(branches: seq<(string, string)>, eval: Eval, fallback: string): string {
    if branches == [] then fallback
    else if eval(branches[0].0) then branches[0].1
    else FirstTrue(branches[1..], eval, fallback)
  }

  /** The text an `if` chain evaluates to: that of the first branch, `if`
      included, whose condition holds; otherwise that of `else`, or nothing. */
  function SelectBranch(ch: Chain, eval: Eval): string {
    FirstTrue([(ch.cond, ch.ifBody)] + ch.elseifs, eval, Fallback(ch))
  }

  /** The `if` branch wins when its condition holds. */
  lemma IfWins(ch: Chain, eval: Eval)
    requires eval(ch.cond)
    ensures SelectBranch(ch, eval) == ch.ifBody
  {
  }

  /** The first `elseif` whose condition holds wins when no earlier condition does. */
  lemma {:induction false} FirstElseifWins(ch: Chain, eval: Eval, j: nat)
    requires j < |ch.elseifs|
    requires !eval(ch.cond)
    requires forall i :: 0 <= i < j ==> !eval(ch.elseifs[i].0)
    requires eval(ch.elseifs[j].0)
    ensures SelectBranch(ch, eval) == ch.elseifs[j].1
  {
    var all := [(ch.cond, ch.ifBody)] + ch.elseifs;
    assert all[1..] == ch.elseifs;
    FirstTrueAt(ch.elseifs, eval, Fallback(ch), j);
  }

  lemma {:induction false} FirstTrueAt(bs: seq<(string, string)>, eval: Eval, fallback: string, j: nat)
    requires j < |bs|
    requires forall i :: 0 <= i < j ==> !eval(bs[i].0)
    requires eval(bs[j].0)
    ensures FirstTrue(bs, eval, fallback) == bs[j].1
    decreases j
  {
    if j > 0 {
      assert !eval(bs[0].0);
      FirstTrueAt(bs[1..], eval, fallback, j - 1);
    }
  }

  /** When no condition holds, the chain yields the `else` text, or nothing. */
  lemma NoneHolds(ch: Chain, eval: Eval)
    requires !eval(ch.cond)
    requires forall i :: 0 <= i < |ch.elseifs| ==> !eval(ch.elseifs[i].0)
    ensures SelectBranch(ch, eval) == Fallback(ch)
  {
    var all := [(ch.cond, ch.ifBody)] + ch.elseifs;
    assert all[1..] == ch.elseifs;
    NoneHoldsFrom(ch.elseifs, eval, Fallback(ch));
  }

  lemma {:induction false} NoneHoldsFrom(bs: seq<(string, string)>, eval: Eval, fallback: string)
    requires forall i :: 0 <= i < |bs| ==> !eval(bs[i].0)
    ensures FirstTrue(bs, eval, fallback) == fallback
    decreases |bs|
  {
    if bs != [] {
      NoneHoldsFrom(bs[1..], eval, fallback);
    }
  }

  /** The selected text is always one of the chain's branch texts or the
      fallback: nothing else is produced. */
  lemma {:induction false} SelectsABranch(bs: seq<(string, string)>, eval: Eval, fallback: string)
    ensures FirstTrue(bs, eval, fallback) == fallback ||
            exists i :: 0 <= i < |bs| && eval(bs[i].0) && FirstTrue(bs, eval, fallback) == bs[i].1
    decreases |bs|
  {
    if bs != [] && !eval(bs[0].0) {
      SelectsABranch(bs[1..], eval, fallback);
      if FirstTrue(bs[1..], eval, fallback) != fallback {
        var i :| 0 <= i < |bs[1..]| && eval(bs[1..][i].0) && FirstTrue(bs[1..], eval, fallback) == bs[1..][i].1;
        assert bs[i + 1] == bs[1..][i];
      }
    }
  }

  // ---------------------------------------------------------------------
  // The selection as written

  /** The match array the callback receives for a chain. Group 0 (the whole
      chain) and groups 3 and 6 (a whole `elseif` or `else` part) are never
      read for their text; groups 4 and 5 hold the last `elseif` only, since
      a repeated group keeps its last repetition; unset trailing groups are
      absent and unset inner ones are empty. */
  function Groups(ch: Chain): (m: seq<string>)
    ensures |m| == 3 || |m| == 6 || |m| == 8
    ensures |m| == 8 <==> ch.elseBody.Some?
  {
    var head := ["", ch.cond, ch.ifBody];
    var mid := if ch.elseifs == [] then ["", "", ""]
               else var last := ch.elseifs[|ch.elseifs| - 1]; [last.0 + last.1, last.0, last.1];
    if ch.elseBody.Some? then head + mid + [ch.elseBody.value, ch.elseBody.value]
    else if ch.elseifs != [] then head + mid
    else head
  }

  /** PHP `array_slice($a, $offset, $length)` for a non-negative offset and a
      negative length: from `offset` up to `-length` entries before the end. */
  function ArraySlice(a: seq<string>, offset: nat, length: int): (r: seq<string>)
    requires length < 0
    ensures |r| == if offset + (-length) <= |a| then |a| + length - offset else 0
    ensures forall i :: 0 <= i < |r| ==> r[i] == a[offset + i]
  {
    if offset >= |a| || |a| + length <= offset then [] else a[offset..|a| + length]
  }

  /** The `elseif` loop as written: it steps through the sliced groups five
      at a time and reads entries `i + 3` and `i + 4`. */
  function ElseifLoop(ec: seq<string>, i: nat, eval: Eval, elseContent: string): string
    decreases |ec| - i
  {
    if i >= |ec| then elseContent
    else if i + 4 < |ec| && eval(ec[i + 3]) then ec[i + 4]
    else ElseifLoop(ec, i + 5, eval, elseContent)
  }

  /** What the callback returns, as written. */
  function SelectAsWritten(ch: Chain, eval: Eval): string {
    var m := Groups(ch);
    var elseifConditions := if |m| > 3 then ArraySlice(m, 3, -3) else [];
    var elseContent := if |m| > 7 then m[7] else "";
    if eval(m[1]) then m[2] else ElseifLoop(elseifConditions, 0, eval, elseContent)
  }

  /** As written, the `elseif` branches are never chosen: the sliced groups
      hold at most two entries, so the loop never reaches an entry `i + 3`. */
  lemma AsWrittenIgnoresElseifs(ch: Chain, eval: Eval)
    ensures SelectAsWritten(ch, eval) == if eval(ch.cond) then ch.ifBody else Fallback(ch)
  {
    var m := Groups(ch);
    var ec := if |m| > 3 then ArraySlice(m, 3, -3) else [];
    assert |ec| <= 2;
  }

  /** The input that shows it: `if a` / `elseif b` with only `b` true selects
      nothing instead of the `elseif` text. */
  lemma ElseifCounterexample()
    ensures var ch := Chain("a", "A", [("b", "B")], None);
      var eval: Eval := s => s == "b";
      SelectAsWritten(ch, eval) == "" && SelectBranch(ch, eval) == "B"
  {
    var ch := Chain("a", "A", [("b", "B")], None);
    var eval: Eval := s => s == "b";
    AsWrittenIgnoresElseifs(ch, eval);
    FirstElseifWins(ch, eval, 0);
  }

  /** The two agree on every chain without `elseif` branches. */
  lemma AgreeWithoutElseifs(ch: Chain, eval: Eval)
    requires ch.elseifs == []
    ensures SelectAsWritten(ch, eval) == SelectBranch(ch, eval)
  {
    AsWrittenIgnoresElseifs(ch, eval);
    if !eval(ch.cond) {
      NoneHolds(ch, eval);
    }
  }
}
