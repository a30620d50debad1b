/** The filter pipeline of `{name|filter:p1,p2|...}` tags: the built-in
    filters, the registry that maps names to filters, the parsing of one
    filter specification and the left-to-right application of a list of them. */
module Filters {
  import opened Wrappers
  import opened Text
  import opened Values

  /** A filter receives the current value followed by the parameters written
      after the colon, and returns the new value or raises a PHP error. */
  type FilterFn = (Value, seq<string>) -> Result<Value, Failure>

  /** The registry: filter name to filter. */
  type Registry = map<string, FilterFn>

  /** The built-in filters that stand for PHP library code this model does not
      interpret (md5, nl2br, htmlspecialchars, abs, round, date, DateTime). */
  datatype Library = Library(
    md5: FilterFn,
    nl2br: FilterFn,
    esc: FilterFn,
    absolute: FilterFn,
    round: FilterFn,
    date: FilterFn,
    dateModify: FilterFn)

  // ---------------------------------------------------------------------
  // Built-in filters that are PHP string functions. A PHP 8 internal
  // function called with more arguments than it declares raises an
  // ArgumentCountError; a closure called with fewer than it declares does too,
  // and ignores extra ones.

  function UpperFilter(v: Value, params: seq<string>): Result<Value, Failure> {
    if |params| > 0 then Err(ArgumentCountError("strtoupper"))
    else
      var s :- AsString(v, "strtoupper");
      Ok(Str(Upper(s)))
  }

  function LowerFilter(v: Value, params: seq<string>): Result<Value, Failure> {
    if |params| > 0 then Err(ArgumentCountError("strtolower"))
    else
      var s :- AsString(v, "strtolower");
      Ok(Str(Lower(s)))
  }

  /** The set of characters of a string parameter. */
  function CharSet(p: string): set<char> {
    set i | 0 <= i < |p| :: p[i]
  }

  /** `ucwords($value [, $delimiters])`. */
  function CapitalizeFilter(v: Value, params: seq<string>): Result<Value, Failure> {
    if |params| > 1 then Err(ArgumentCountError("ucwords"))
    else
      var s :- AsString(v, "ucwords");
      Ok(Str(Ucwords(s, if |params| == 0 then DefaultWordDelimiters else CharSet(params[0]))))
  }

  /** `trim($value [, $characters])`. */
  function TrimFilter(v: Value, params: seq<string>): Result<Value, Failure> {
    if |params| > 1 then Err(ArgumentCountError("trim"))
    else
      var s :- AsString(v, "trim");
      Ok(Str(Trim(s, if |params| == 0 then DefaultTrimChars else CharSet(params[0]))))
  }

  /** `strlen($value)`. */
  function LengthFilter(v: Value, params: seq<string>): Result<Value, Failure> {
    if |params| > 0 then Err(ArgumentCountError("strlen"))
    else
      var s :- AsString(v, "strlen");
      Ok(Int(|s|))
  }

  /** `strrev($value)`. */
  function ReverseFilter(v: Value, params: seq<string>): Result<Value, Failure> {
    if |params| > 0 then Err(ArgumentCountError("strrev"))
    else
      var s :- AsString(v, "strrev");
      Ok(Str(Reverse(s)))
  }

  /** The coercion of a string parameter to a PHP `int` parameter: the number
      the string starts with (a warning, not an error, when text follows it),
      truncated toward zero, when it lies in the 64-bit range; a string that
      does not start with a number, or a number out of range, is a TypeError. */
  function IntParam(p: string, fn: string): (r: Result<int, Failure>)
    ensures r.Ok? ==> IntMin <= r.value <= IntMax
    ensures r.Err? ==> r.error == TypeError(fn)
  {
    match NumericPrefix(p)
    case Some(x) =>
      if FitsInt(x) then
        TruncateFits(x);
        Ok(Truncate(x))
      else Err(TypeError(fn))
    case None => Err(TypeError(fn))
  }

  /** An integer literal is accepted as its value exactly when it is in the
      64-bit range, and text that cannot continue a number after it is ignored. */
  lemma IntLiteralParam(a: string, rest: string, fn: string)
    requires ParseInt(a).Some?
    requires rest == [] || !(IsDigit(rest[0]) || rest[0] == '.' || rest[0] == 'e' || rest[0] == 'E')
    ensures var n := ParseInt(a).value;
            IntParam(a + rest, fn) == if IntMin <= n <= IntMax then Ok(n) else Err(TypeError(fn))
  {
    LiteralPrefix(a, rest);
  }

  /** `aeb`, with digit runs `a` and `b`, is accepted as `a * 10^b` when that
      is at most the largest integer. */
  lemma ScientificParam(a: string, b: string, fn: string)
    requires |a| >= 1 && AllDigits(a) && |b| >= 1 && AllDigits(b)
    ensures var v := ParseDigits(a) * Pow10(ParseDigits(b));
            IntParam(a + "e" + b, fn) == if v <= IntMax then Ok(v) else Err(TypeError(fn))
  {
    ScientificPrefix(a, b);
  }

  /** A parameter without any digit is a TypeError. */
  lemma DigitlessParam(p: string, fn: string)
    requires forall i :: 0 <= i < |p| ==> !IsDigit(p[i])
    ensures IntParam(p, fn) == Err(TypeError(fn))
  {
    var a := SpaceEnd(p, 0);
    var b := if a < |p| && (p[a] == '-' || p[a] == '+') then a + 1 else a;
    DigitEndAt(p, b, b);
    var c := DigitEnd(p, b);
    var d := if c < |p| && p[c] == '.' then c + 1 else c;
    DigitEndAt(p, d, d);
  }

  /** `function($value, $limit) { return substr($value, 0, $limit); }` */
  function LimitChars(v: Value, params: seq<string>): Result<Value, Failure> {
    if |params| < 1 then Err(ArgumentCountError("limit_chars"))
    else
      var s :- AsString(v, "substr");
      var n :- IntParam(params[0], "substr");
      Ok(Str(SlicePrefix(s, n)))
  }

  /** `implode(' ', array_slice(explode(' ', $value), 0, $limit))` */
  function LimitWords(v: Value, params: seq<string>): Result<Value, Failure> {
    if |params| < 1 then Err(ArgumentCountError("limit_words"))
    else
      var s :- AsString(v, "explode");
      var n :- IntParam(params[0], "array_slice");
      Ok(Str(Join(SlicePrefix(Split(s, " "), n), " ")))
  }

  function Strong(term: string): string {
    "<strong>" + term + "</strong>"
  }

  /** `str_replace($term, "<strong>$term</strong>", $value)`. On an array subject
      str_replace works on each scalar entry and keeps nested arrays. */
  function Highlight(v: Value, params: seq<string>): Result<Value, Failure> {
    if |params| < 1 then Err(ArgumentCountError("highlight"))
    else
      var term := params[0];
      match v
      case Arr(es) =>
        Ok(Arr(seq(|es|, i requires 0 <= i < |es| =>
          if es[i].1.Arr? then es[i] else (es[i].0, Str(ReplaceAll(ToStr(es[i].1), term, Strong(term)))))))
      case _ => Ok(Str(ReplaceAll(ToStr(v), term, Strong(term))))
  }

  /** `empty($value) ? $default : $value` */
  function Default(v: Value, params: seq<string>): Result<Value, Failure> {
    if |params| < 1 then Err(ArgumentCountError("default"))
    else if IsEmpty(v) then Ok(Str(params[0]))
    else Ok(v)
  }

  /** The registry the parser's constructor installs. */
  function Builtins(lib: Library): Registry {
    map[
      "upper" := UpperFilter,
      "lower" := LowerFilter,
      "capitalize" := CapitalizeFilter,
      "trim" := TrimFilter,
      "length" := LengthFilter,
      "reverse" := ReverseFilter,
      "md5" := lib.md5,
      "nl2br" := lib.nl2br,
      "esc" := lib.esc,
      "absolute" := lib.absolute,
      "round" := lib.round,
      "limit_chars" := LimitChars,
      "limit_words" := LimitWords,
      "highlight" := Highlight,
      "date" := lib.date,
      "date_modify" := lib.dateModify,
      "default" := Default
    ]
  }

  // ---------------------------------------------------------------------
  // Filter specifications and the pipeline

  /** One parsed specification `name[:p1,p2,...]`. */
  datatype Spec = Spec(name: string, params: seq<string>)

  function TrimAll(ps: seq<string>): (r: seq<string>)
    ensures |r| == |ps| && forall k :: 0 <= k < |ps| ==> r[k] == Trim(ps[k], DefaultTrimChars)
  {
    seq(|ps|, k requires 0 <= k < |ps| => Trim(ps[k], DefaultTrimChars))
  }

  /** A specification without a colon is a bare name; otherwise it is split at
      its first colon, and the part after it is split on commas and each
      parameter trimmed. */
  function ParseSpec(filter: string): (sp: Spec)
    ensures IndexOf(filter, ":").None? ==> sp == Spec(filter, [])
    ensures IndexOf(filter, ":").Some? ==>
              && IndexOf(sp.name, ":").None?
              && exists raw :: filter == sp.name + ":" + raw && sp.params == TrimAll(Split(raw, ","))
  {
    match IndexOf(filter, ":")
    case None => Spec(filter, [])
    case Some(i) =>
      var raw := filter[i + 1..];
      assert filter == filter[..i] + ":" + raw by {
        assert filter[i..i + 1] == ":";
      }
      assert IndexOf(filter[..i], ":").None? by {
        forall j | 0 <= j ensures !OccursAt(filter[..i], ":", j) {
          if j + 1 <= i {
            assert !OccursAt(filter, ":", j);
            assert filter[j..j + 1] == filter[..i][j..j + 1];
          }
        }
      }
      Spec(filter[..i], TrimAll(Split(raw, ",")))
  }

  /** One step of the pipeline: a registered filter is called with the current
      value ahead of its parameters; an unregistered name is skipped. */
  function Step(v: Value, filter: string, reg: Registry): Result<Value, Failure> {
    var sp := ParseSpec(filter);
    if sp.name in reg then reg[sp.name](v, sp.params) else Ok(v)
  }

  /** The filters applied left to right, each result feeding the next; the
      first error ends the pipeline. */
  function Pipeline(v: Value, filters: seq<string>, reg: Registry): Result<Value, Failure>
    decreases |filters|
  {
    if filters == [] then Ok(v)
    else
      var w :- Step(v, filters[0], reg);
      Pipeline(w, filters[1..], reg)
  }

  /** Running two lists of filters in a row is running their concatenation. */
  lemma {:induction false} PipelineAppend(v: Value, a: seq<string>, b: seq<string>, reg: Registry)
    ensures Pipeline(v, a + b, reg) ==
              match Pipeline(v, a, reg)
              case Ok(w) => Pipeline(w, b, reg)
              case Err(e) => Err(e)
    decreases |a|
  {
    if a == [] {
      assert a + b == b;
    } else {
      assert (a + b)[0] == a[0];
      assert (a + b)[1..] == a[1..] + b;
      match Step(v, a[0], reg)
      case Ok(w) => PipelineAppend(w, a[1..], b, reg);
      case Err(_) =>
    }
  }

  /** A specification whose name is not registered leaves the value unchanged. */
  lemma UnknownFilterSkipped(v: Value, filter: string, rest: seq<string>, reg: Registry)
    requires ParseSpec(filter).name !in reg
    ensures Pipeline(v, [filter] + rest, reg) == Pipeline(v, rest, reg)
  {
    assert ([filter] + rest)[1..] == rest;
  }

  /** A pipeline of unregistered names is the identity. */
  lemma {:induction false} UnknownFiltersIdentity(v: Value, filters: seq<string>, reg: Registry)
    requires forall k :: 0 <= k < |filters| ==> ParseSpec(filters[k]).name !in reg
    ensures Pipeline(v, filters, reg) == Ok(v)
    decreases |filters|
  {
    if filters != [] {
      UnknownFiltersIdentity(v, filters[1..], reg);
    }
  }

  /** `name:p1, p2` calls the filter registered under `name` with the current
      value first and the trimmed parameters after it. */
  lemma StepWithParameters(v: Value, name: string, raw: string, reg: Registry)
    requires IndexOf(name, ":").None? && name in reg
    ensures Step(v, name + ":" + raw, reg) == reg[name](v, TrimAll(Split(raw, ",")))
  {
    var f := name + ":" + raw;
    assert OccursAt(f, ":", |name|) by {
      assert f[|name|..|name| + 1] == ":";
    }
    forall j | 0 <= j < |name| ensures !OccursAt(f, ":", j) {
      if OccursAt(f, ":", j) {
        assert f[j..j + 1] == name[j..j + 1];
        assert OccursAt(name, ":", j);
      }
    }
    assert IndexOf(f, ":") == Some(|name|);
    assert f[|name| + 1..] == raw;
  }

  // ---------------------------------------------------------------------
  // Properties of the built-in string filters

  /** A filter name without a colon parses to itself with no parameters. */
  lemma BareName(name: string)
    requires forall j :: 0 <= j < |name| ==> name[j] != ':'
    ensures ParseSpec(name) == Spec(name, [])
  {
    forall j | 0 <= j ensures !OccursAt(name, ":", j) {
      if j < |name| {
        assert name[j..j + 1][0] == name[j] != ':';
      }
    }
  }

  /** `upper` then `trim` is trim of the upper-cased string. */
  lemma UpperThenTrim(s: string, lib: Library)
    ensures Pipeline(Str(s), ["upper", "trim"], Builtins(lib)) == Ok(Str(Trim(Upper(s), DefaultTrimChars)))
  {
    var reg := Builtins(lib);
    UpperAndTrimRegistered(lib);
    BareName("upper");
    BareName("trim");
    var u := Str(Upper(s));
    assert Step(Str(s), "upper", reg) == Ok(u);
    assert Step(u, "trim", reg) == Ok(Str(Trim(Upper(s), DefaultTrimChars)));
    PipelineOfTwo(Str(s), "upper", "trim", reg);
  }

  lemma UpperAndTrimRegistered(lib: Library)
    ensures "upper" in Builtins(lib) && Builtins(lib)["upper"] == UpperFilter
    ensures "trim" in Builtins(lib) && Builtins(lib)["trim"] == TrimFilter
  {
  }

  /** A pipeline of two specifications whose first step succeeds. */
  lemma PipelineOfTwo(v: Value, a: string, b: string, reg: Registry)
    requires Step(v, a, reg).Ok?
    ensures Pipeline(v, [a, b], reg) == Step(Step(v, a, reg).value, b, reg)
  {
    assert [a, b][1..] == [b];
    assert [b][1..] == [];
    var w := Step(v, a, reg).value;
    assert Pipeline(v, [a, b], reg) == Pipeline(w, [b], reg);
    match Step(w, b, reg)
    case Ok(x) =>
      assert Pipeline(w, [b], reg) == Pipeline(x, [], reg);
    case Err(e) =>
      assert Pipeline(w, [b], reg) == Err(e);
  }

  /** `limit_chars:n` with n >= 0 keeps the first n characters (all of them when
      the string is shorter). */
  lemma LimitCharsKeepsPrefix(s: string, p: string, n: nat)
    requires IntParam(p, "substr") == Ok(n)
    ensures var r := LimitChars(Str(s), [p]);
            && r.Ok? && r.value.Str?
            && |r.value.s| == (if n <= |s| then n else |s|)
            && r.value.s == s[..|r.value.s|]
  {
  }

  /** `limit_chars:-n` drops the last n characters. */
  lemma LimitCharsNegative(s: string, p: string, n: int)
    requires IntParam(p, "substr") == Ok(-n) && 0 < n <= |s|
    ensures LimitChars(Str(s), [p]) == Ok(Str(s[..|s| - n]))
  {
  }

  /** In `w + sep + rest`, with `w` free of the one-character separator, the
      first separator is the one right after `w`. */
  lemma FirstSeparator(w: string, sep: string, rest: string)
    requires |sep| == 1
    requires forall j :: 0 <= j ==> !OccursAt(w, sep, j)
    ensures IndexOf(w + sep + rest, sep) == Some(|w|)
  {
    var s := w + sep + rest;
    assert OccursAt(s, sep, |w|) by {
      assert s[|w|..|w| + |sep|] == sep;
    }
    forall j | 0 <= j < |w| ensures !OccursAt(s, sep, j) {
      if OccursAt(s, sep, j) {
        assert s[j..j + |sep|] == w[j..j + |sep|];
        assert OccursAt(w, sep, j);
      }
    }
  }

  /** Splitting an implode of words free of a one-character separator gives
      the words back. */
  lemma {:induction false} SplitJoin(ws: seq<string>, sep: string)
    requires |sep| == 1 && |ws| >= 1
    requires forall k, j :: 0 <= k < |ws| && 0 <= j ==> !OccursAt(ws[k], sep, j)
    ensures Split(Join(ws, sep), sep) == ws
    decreases |ws|
  {
    if |ws| == 1 {
      assert IndexOf(ws[0], sep).None?;
    } else {
      var w := ws[0];
      var rest := Join(ws[1..], sep);
      var s := w + sep + rest;
      assert Join(ws, sep) == s;
      FirstSeparator(w, sep, rest);
      assert s[..|w|] == w;
      assert s[|w| + |sep|..] == rest;
      assert Split(s, sep) == [w] + Split(rest, sep);
      SplitJoin(ws[1..], sep);
      assert ws == [w] + ws[1..];
    }
  }

  /** `limit_words:n` with n >= 1 keeps the first n space-separated words
      (all of them when there are fewer), joined by single spaces. */
  lemma LimitWordsKeepsFirstWords(s: string, p: string, n: nat)
    requires IntParam(p, "array_slice") == Ok(n) && n >= 1
    ensures var r := LimitWords(Str(s), [p]);
            var words := Split(s, " ");
            && r.Ok? && r.value.Str?
            && Split(r.value.s, " ") == words[..if n <= |words| then n else |words|]
  {
    var words := Split(s, " ");
    var kept := SlicePrefix(words, n);
    SplitPiecesFree(s, " ");
    SplitJoin(kept, " ");
  }

  /** `limit_words:-n` drops the last n words. */
  lemma LimitWordsNegative(s: string, p: string, n: nat)
    requires 0 < n < |Split(s, " ")|
    requires IntParam(p, "array_slice") == Ok(-(n as int))
    ensures var r := LimitWords(Str(s), [p]);
            var words := Split(s, " ");
            && r.Ok? && r.value.Str?
            && Split(r.value.s, " ") == words[..|words| - n]
  {
    var words := Split(s, " ");
    var kept := SlicePrefix(words, -(n as int));
    assert kept == words[..|words| - n];
    assert LimitWords(Str(s), [p]) == Ok(Str(Join(kept, " ")));
    SplitPiecesFree(s, " ");
    SplitJoin(kept, " ");
  }

  /** `limit_words:0`, or a negative limit reaching back over every word,
      gives the empty string. */
  lemma LimitWordsNone(s: string, p: string, n: int)
    requires n == 0 || n <= -|Split(s, " ")|
    requires IntParam(p, "array_slice") == Ok(n)
    ensures LimitWords(Str(s), [p]) == Ok(Str(""))
  {
    assert SlicePrefix(Split(s, " "), n) == [];
  }

  /** `highlight:term` wraps every occurrence of a non-empty term in
      `<strong>...</strong>`: the result is the input split at the term and
      re-joined with the wrapped term. An empty term changes nothing. */
  lemma HighlightWrapsEveryOccurrence(s: string, term: string)
    ensures |term| > 0 ==> Highlight(Str(s), [term]) == Ok(Str(Join(Split(s, term), Strong(term))))
    ensures |term| == 0 ==> Highlight(Str(s), [term]) == Ok(Str(s))
  {
    if |term| > 0 {
      ReplaceAllIsJoinSplit(s, term, Strong(term));
    }
  }

  /** `default:x` gives x exactly when the value is PHP-empty, and the value
      itself otherwise. */
  lemma DefaultOnlyWhenEmpty(v: Value, fallback: string, rest: seq<string>)
    ensures Default(v, [fallback] + rest).Ok?
    ensures Default(v, [fallback] + rest).value == Str(fallback) <==> IsEmpty(v) || v == Str(fallback)
    ensures !IsEmpty(v) ==> Default(v, [fallback] + rest).value == v
  {
  }

  /** The closures that take a parameter raise an ArgumentCountError when it
      is missing. */
  lemma ClosuresNeedTheirParameter(v: Value)
    ensures LimitChars(v, []).Err? && LimitWords(v, []).Err? && Highlight(v, []).Err? && Default(v, []).Err?
  {
  }

  /** `reverse` applied twice gives back the string form of the value. */
  lemma ReverseTwice(s: string)
    ensures ReverseFilter(Str(s), []).Ok?
    ensures ReverseFilter(ReverseFilter(Str(s), []).value, []) == Ok(Str(s))
  {
    assert Reverse(Reverse(s)) == s;
  }
}
