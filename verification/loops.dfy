/** Loop tags: `_parse_pair` finds the first loop over a variable, and
    `_process_pair_body` renders its body once per row of the variable's
    array, with the row's entries and the counters `index` and `i` in scope. */
module Loops {
  import opened Wrappers
  import opened Text
  import opened Values
  import opened Filters
  import opened Lexer
  import opened Substitution

  /** The conditional pass (`_parse_conditionals`) run over each row's body
      with the row's data. Conditions are evaluated by code outside this
      model, so the pass is a parameter. */
  type CondPass = (string, Dict<Value>) -> string

  /** PHP `(array)$row`: an array stays as it is, null becomes the empty array
      and a scalar becomes a one-entry array under key 0. */
  function RowArray(row: Value): (es: Dict<Value>)
    ensures row.Arr? ==> es == row.entries
    ensures row.Null? ==> es == []
    ensures !row.Arr? && !row.Null? ==> Keys(es) == ["0"] && Lookup(es, "0") == Some(row)
  {
    match row
    case Arr(es) => es
    case Null => []
    case _ => [("0", row)]
  }

  /** The counters every row sees: its 0-based position and its 1-based number. */
  function Counters(k: nat): Dict<Value> {
    [("index", Int(k)), ("i", Int(k + 1))]
  }

  /** The data the `k`-th row's body is rendered with: the counters merged
      with the row (the row wins), nested under the loop variable when the
      loop names one. */
  function RowContext(k: nat, row: Value, lv: Option<string>): Dict<Value> {
    var merged := Merge(Counters(k), RowArray(row));
    if lv.Some? then [(lv.value, Arr(merged))] else merged
  }

  /** The `k`-th row rendered: conditionals first, then every (key, scalar)
      pair `_parse_row` reaches in the row's data. */
  function RenderRow(k: nat, row: Value, body: string, lv: Option<string>, conds: CondPass, d: Delims, reg: Registry): Result<string, Failure> {
    var ctx := RowContext(k, row, lv);
    ApplyLeaves(RowLeaves(ctx), conds(body, ctx), d, reg)
  }

  /** `s` in front of a rendered text; a failure stays a failure. */
  function Prefixed(s: string, r: Result<string, Failure>): Result<string, Failure> {
    match r
    case Ok(x) => Ok(s + x)
    case Err(e) => Err(e)
  }

  /** A renderer of one row: its position and its value in, its text out. */
  type RowRender = (nat, Value) -> Result<string, Failure>

  /** The renderer `_process_pair_body` uses for one loop body. */
  function Renderer(body: string, lv: Option<string>, conds: CondPass, d: Delims, reg: Registry): RowRender {
    (k: nat, row: Value) => RenderRow(k, row, body, lv, conds, d, reg)
  }

  /** The rows from position `k` on, rendered and concatenated in row order;
      the first failure ends the loop. */
  function RenderRows(rows: Dict<Value>, k: nat, render: RowRender): Result<string, Failure>
    decreases |rows|
  {
    if rows == [] then Ok("")
    else
      var first :- render(k, rows[0].1);
      Prefixed(first, RenderRows(rows[1..], k + 1, render))
  }

  /** What `_process_pair_body` returns: the rendered rows of an array, and
      the empty string for anything else. */
  function PairBody(data: Value, body: string, lv: Option<string>, conds: CondPass, d: Delims, reg: Registry): Result<string, Failure> {
    if data.Arr? then RenderRows(data.entries, 0, Renderer(body, lv, conds, d, reg)) else Ok("")
  }

  /** The loop and the text around it: the text before the opening tag, the
      rendered rows, and the text after the closing tag. */
  function Splice(t: string, m: Pair, r: Result<string, Failure>): Result<string, Failure>
    requires m.start <= m.end <= |t|
  {
    match r
    case Ok(x) => Ok(t[..m.start] + x + t[m.end..])
    case Err(e) => Err(e)
  }

  /** What `_parse_pair` returns: the first `L item in variable R ... L end
      variable R` loop, rendered with each row under `item`; failing that,
      the first `L variable R ... L /variable R` loop with the rows' entries
      in scope directly; failing both, the text unchanged. */
  function ParsePairSpec(variable: string, data: Value, t: string, d: Delims, conds: CondPass, reg: Registry): Result<string, Failure> {
    match FirstPair(t, 0, LoopOpen(d, variable), LoopClose(d, variable))
    case Some(m) =>
      Splice(t, m, PairBody(data, t[m.bodyStart..m.bodyEnd], Some(m.caps[0]), conds, d, reg))
    case None =>
      match FirstPair(t, 0, LegacyOpen(d, variable), LegacyClose(d, variable))
      case Some(m) => Splice(t, m, PairBody(data, t[m.bodyStart..m.bodyEnd], None, conds, d, reg))
      case None => Ok(t)
  }

  // ---------------------------------------------------------------------
  // Properties

  /** A row sees its own entries; `index` and `i` read the counters unless
      the row defines them itself. */
  lemma RowSeesCounters(k: nat, row: Value, q: string)
    requires row.Arr? ==> UniqueKeys(row.entries)
    ensures var ctx := RowContext(k, row, None);
      Lookup(ctx, q) == if q in Keys(RowArray(row)) then Lookup(RowArray(row), q) else Lookup(Counters(k), q)
    ensures q !in Keys(RowArray(row)) && q == "index" ==> Lookup(RowContext(k, row, None), q) == Some(Int(k))
    ensures q !in Keys(RowArray(row)) && q == "i" ==> Lookup(RowContext(k, row, None), q) == Some(Int(k + 1))
  {
    MergeLookup(Counters(k), RowArray(row), q);
  }

  /** With a loop variable, the row's data is the one entry under that name,
      whose array holds what the row would see without it. */
  lemma LoopVariableNests(k: nat, row: Value, x: string, q: string)
    requires row.Arr? ==> UniqueKeys(row.entries)
    ensures Keys(RowContext(k, row, Some(x))) == [x]
    ensures var inner := Lookup(RowContext(k, row, Some(x)), x).value;
      inner.Arr? && Lookup(inner.entries, q) == Lookup(RowContext(k, row, None), q)
  {
  }

  /** Two texts put in front one after the other. */
  lemma PrefixedTwice(s: string, f: string, r: Result<string, Failure>)
    ensures Prefixed(s, Prefixed(f, r)) == Prefixed(s + f, r)
  {
    if r.Ok? {
      assert s + (f + r.value) == (s + f) + r.value;
    }
  }

  /** Two renderings in a row: the second one's text after the first's; the
      first failure is the result. */
  function Then(ra: Result<string, Failure>, rb: Result<string, Failure>): Result<string, Failure> {
    match ra
    case Ok(x) => Prefixed(x, rb)
    case Err(e) => Err(e)
  }

  /** Rendering a list of rows is rendering its two halves, the second one
      numbered on from where the first stops: the rows come out in order. */
  lemma {:induction false} RenderRowsAppend(a: Dict<Value>, b: Dict<Value>, k: nat, render: RowRender)
    ensures RenderRows(a + b, k, render) == Then(RenderRows(a, k, render), RenderRows(b, k + |a|, render))
    decreases |a|
  {
    if a == [] {
      assert a + b == b;
      var rb := RenderRows(b, k, render);
      if rb.Ok? {
        assert "" + rb.value == rb.value;
      }
    } else {
      assert (a + b)[0] == a[0] && (a + b)[1..] == a[1..] + b;
      assert k + |a| == k + 1 + |a[1..]|;
      var r := render(k, a[0].1);
      if r.Ok? {
        RenderRowsAppend(a[1..], b, k + 1, render);
        var ra := RenderRows(a[1..], k + 1, render);
        var rb := RenderRows(b, k + |a|, render);
        if ra.Ok? && rb.Ok? {
          assert r.value + (ra.value + rb.value) == (r.value + ra.value) + rb.value;
        }
      }
    }
  }

  /** A single row renders to exactly its own text. */
  lemma OneRow(row: (string, Value), k: nat, render: RowRender)
    ensures RenderRows([row], k, render) == render(k, row.1)
  {
    var r := render(k, row.1);
    if r.Ok? {
      assert r.value + "" == r.value;
    }
  }

  /** `n` copies of `s`, one after the other. */
  function Repeat(s: string, n: nat): (r: string)
    ensures |r| == n * |s|
  {
    if n == 0 then "" else s + Repeat(s, n - 1)
  }

  /** A body with no tag in it, which the conditional pass leaves alone, is
      copied once per row. */
  lemma {:induction false} StaticBodyRepeats(rows: Dict<Value>, k: nat, body: string, lv: Option<string>, conds: CondPass, d: Delims, reg: Registry)
    requires AbsentBefore(body, d.left, |body|)
    requires forall ctx :: conds(body, ctx) == body
    ensures RenderRows(rows, k, Renderer(body, lv, conds, d, reg)) == Ok(Repeat(body, |rows|))
    decreases |rows|
  {
    if rows != [] {
      var ctx := RowContext(k, rows[0].1, lv);
      assert conds(body, ctx) == body;
      ApplyLeavesNoLeft(RowLeaves(ctx), body, d, reg);
      StaticBodyRepeats(rows[1..], k + 1, body, lv, conds, d, reg);
    }
  }

  /** `_process_pair_body` renders nothing for data that is not an array. */
  lemma NotAnArray(data: Value, body: string, lv: Option<string>, conds: CondPass, d: Delims, reg: Registry)
    requires !data.Arr?
    ensures PairBody(data, body, lv, conds, d, reg) == Ok("")
  {
  }

  /** A text without the left delimiter holds no loop and is returned as it is. */
  lemma ParsePairNoTags(variable: string, data: Value, t: string, d: Delims, conds: CondPass, reg: Registry)
    requires AbsentBefore(t, d.left, |t|)
    ensures ParsePairSpec(variable, data, t, d, conds, reg) == Ok(t)
  {
    NoLeftNoPair(t, 0, d, LoopOpen(d, variable), LoopClose(d, variable));
    NoLeftNoPair(t, 0, d, LegacyOpen(d, variable), LegacyClose(d, variable));
  }

  /** The first loop in the `item in variable` form, over an array of rows,
      with a body that holds no tag and that the conditional pass leaves
      alone, becomes one copy of the body per row, between the text before
      the loop and the text after it; the legacy form is not looked at. */
  lemma LoopRepeatsStaticBody(variable: string, rows: Dict<Value>, t: string, d: Delims, conds: CondPass, reg: Registry)
    requires FirstPair(t, 0, LoopOpen(d, variable), LoopClose(d, variable)).Some?
    requires var m := FirstPair(t, 0, LoopOpen(d, variable), LoopClose(d, variable)).value;
      var body := t[m.bodyStart..m.bodyEnd];
      AbsentBefore(body, d.left, |body|) && forall ctx :: conds(body, ctx) == body
    ensures var m := FirstPair(t, 0, LoopOpen(d, variable), LoopClose(d, variable)).value;
      ParsePairSpec(variable, Arr(rows), t, d, conds, reg) ==
        Ok(t[..m.start] + Repeat(t[m.bodyStart..m.bodyEnd], |rows|) + t[m.end..])
  {
    var m := FirstPair(t, 0, LoopOpen(d, variable), LoopClose(d, variable)).value;
    StaticBodyRepeats(rows, 0, t[m.bodyStart..m.bodyEnd], Some(m.caps[0]), conds, d, reg);
  }

  /** The same for the legacy `L variable R ... L /variable R` form, which
      counts only when the text holds no loop in the newer form. */
  lemma LegacyLoopRepeatsStaticBody(variable: string, rows: Dict<Value>, t: string, d: Delims, conds: CondPass, reg: Registry)
    requires FirstPair(t, 0, LoopOpen(d, variable), LoopClose(d, variable)).None?
    requires FirstPair(t, 0, LegacyOpen(d, variable), LegacyClose(d, variable)).Some?
    requires var m := FirstPair(t, 0, LegacyOpen(d, variable), LegacyClose(d, variable)).value;
      var body := t[m.bodyStart..m.bodyEnd];
      AbsentBefore(body, d.left, |body|) && forall ctx :: conds(body, ctx) == body
    ensures var m := FirstPair(t, 0, LegacyOpen(d, variable), LegacyClose(d, variable)).value;
      ParsePairSpec(variable, Arr(rows), t, d, conds, reg) ==
        Ok(t[..m.start] + Repeat(t[m.bodyStart..m.bodyEnd], |rows|) + t[m.end..])
  {
    var m := FirstPair(t, 0, LegacyOpen(d, variable), LegacyClose(d, variable)).value;
    StaticBodyRepeats(rows, 0, t[m.bodyStart..m.bodyEnd], None, conds, d, reg);
  }
}
