/** The parser object: its registries and recorded blocks, the setters that
    change them, and the rendering of a template, step by step as `parse`
    does it. Each step is a method proved equal to the function that
    specifies it in the modules it imports. */
module Engine {
  import opened Wrappers
  import opened Text
  import opened Values
  import opened Filters
  import opened Lexer
  import opened Resolver
  import opened NoParse
  import opened Substitution
  import opened Loops
  import opened Blocks

  /** A plugin receives the rendered text and the data and returns new text. */
  type PluginFn = (string, Dict<Value>) -> string

  /** What `parse` gives back: `false` for an empty template name, a PHP
      error raised by a filter, or the rendered text. */
  datatype Outcome = Rejected | Failed(error: Failure) | Rendered(text: string)

  /** The plugins applied in registration order, each to the previous result. */
  function RunPlugins(plugins: Dict<PluginFn>, t: string, data: Dict<Value>): string
    decreases |plugins|
  {
    if plugins == [] then t else RunPlugins(plugins[1..], plugins[0].1(t, data), data)
  }

  /** `sanitize_input`: a scalar becomes its string escaped by `escape`
      (`htmlspecialchars`); an array is sanitized entry by entry. */
  function Sanitize(v: Value, escape: string -> string): Value
    decreases v, 1
  {
    if v.Arr? then Arr(SanitizeEntries(v.entries, v, escape)) else Str(escape(ToStr(v)))
  }

  function SanitizeEntries(es: Dict<Value>, ghost parent: Value, escape: string -> string): (r: Dict<Value>)
    requires parent.Arr? && forall i :: 0 <= i < |es| ==> es[i].1 < parent
    ensures |r| == |es| && forall i :: 0 <= i < |es| ==> r[i].0 == es[i].0
    decreases parent, 0, |es|
  {
    if es == [] then [] else [(es[0].0, Sanitize(es[0].1, escape))] + SanitizeEntries(es[1..], parent, escape)
  }

  /** `array_map` of `sanitize_input` over the data: same keys, sanitized values. */
  function SanitizeAll(data: Dict<Value>, escape: string -> string): (r: Dict<Value>)
    ensures Keys(r) == Keys(data)
  {
    SanitizeEntries(data, Arr(data), escape)
  }

  /** The pass over the data in `parse`: an array value renders the loops
      over its key, any other value substitutes the key's tags. */
  function DataPass(data: Dict<Value>, t: string, d: Delims, conds: CondPass, reg: Registry): Result<string, Failure>
    decreases |data|
  {
    if data == [] then Ok(t)
    else
      var (key, val) := data[0];
      var t1 :- if val.Arr? then ParsePairSpec(key, val, t, d, conds, reg) else Substitute(t, d, key, val, reg);
      DataPass(data[1..], t1, d, conds, reg)
  }

  /** What `parse(name, data, TRUE)` returns for a view whose loaded text is
      `view`, given the parser's state. */
  function Render(name: string, view: string, data: Dict<Value>, templateData: Dict<Value>, plugins: Dict<PluginFn>,
                  stack: seq<string>, blocks: map<string, string>, escape: string -> string, conds: CondPass,
                  d: Delims, reg: Registry): Outcome {
    if name == "" then Rejected
    else
      var all := SanitizeAll(Merge(templateData, data), escape);
      var ps := Scan(Expand(BlockScan(view, d, 0), stack, blocks), d, 0);
      match DataPass(all, Extracted(ps, 0), d, conds, reg)
      case Err(e) => Failed(e)
      case Ok(t) => Rendered(RestoreAll(conds(RunPlugins(plugins, t, all), all), Table(ps, 0)))
  }

  // ---------------------------------------------------------------------
  // Properties of the render

  /** A plugin registered under a new name runs last, on what the earlier
      plugins produced. */
  lemma {:induction false} PluginsRunInOrder(plugins: Dict<PluginFn>, name: string, f: PluginFn, t: string, data: Dict<Value>)
    ensures RunPlugins(plugins + [(name, f)], t, data) == f(RunPlugins(plugins, t, data), data)
    decreases |plugins|
  {
    if plugins == [] {
      assert plugins + [(name, f)] == [(name, f)];
    } else {
      assert (plugins + [(name, f)])[1..] == plugins[1..] + [(name, f)];
      PluginsRunInOrder(plugins[1..], name, f, plugins[0].1(t, data), data);
    }
  }

  /** Sanitizing keeps every key and sanitizes the value under it. */
  lemma {:induction false} SanitizeLookup(es: Dict<Value>, parent: Value, escape: string -> string, q: string)
    requires parent.Arr? && forall i :: 0 <= i < |es| ==> es[i].1 < parent
    ensures Lookup(SanitizeEntries(es, parent, escape), q) ==
              if Lookup(es, q).Some? then Some(Sanitize(Lookup(es, q).value, escape)) else None
    decreases |es|
  {
    if es != [] && es[0].0 != q {
      SanitizeLookup(es[1..], parent, escape, q);
    }
  }

  /** After sanitizing, every value is a string or an array of such: integers,
      booleans and null have all become escaped strings. */
  lemma {:induction false} SanitizedIsText(v: Value, escape: string -> string)
    ensures Sanitize(v, escape).Arr? <==> v.Arr?
    ensures !v.Arr? ==> Sanitize(v, escape).Str?
    ensures v.Arr? ==> (|Sanitize(v, escape).entries| == |v.entries| &&
                        forall i :: 0 <= i < |v.entries| ==> Sanitize(v, escape).entries[i].0 == v.entries[i].0)
  {
  }

  /** The scan finds no `noparse` region in a text without the left delimiter. */
  lemma {:induction false} ScanNoLeft(t: string, d: Delims, i: nat)
    requires i <= |t|
    requires AbsentBefore(t, d.left, |t|)
    ensures Bodies(Scan(t, d, i)) == []
    decreases |t| - i
  {
    if i < |t| {
      NoLeftNoPair(t, i, d, NoparseOpen(d), NoparseClose(d));
      assert PairAt(t, i, NoparseOpen(d), NoparseClose(d)).None?;
      ScanAt(t, d, i);
      ScanNoLeft(t, d, i + 1);
    }
  }

  /** The data pass leaves a text without the left delimiter as it is. */
  lemma {:induction false} DataPassNoTags(data: Dict<Value>, t: string, d: Delims, conds: CondPass, reg: Registry)
    requires AbsentBefore(t, d.left, |t|)
    ensures DataPass(data, t, d, conds, reg) == Ok(t)
    decreases |data|
  {
    if data != [] {
      var (key, val) := data[0];
      if val.Arr? {
        ParsePairNoTags(key, val, t, d, conds, reg);
      } else {
        SubstituteNoLeft(t, d, key, val, reg);
      }
      DataPassNoTags(data[1..], t, d, conds, reg);
    }
  }

  /** A template without the left delimiter renders as it is, whatever the
      data, when no plugin is registered and the conditional pass leaves it
      alone. */
  lemma NoTagsRenderedAsIs(name: string, view: string, data: Dict<Value>, templateData: Dict<Value>,
                           stack: seq<string>, blocks: map<string, string>, escape: string -> string, conds: CondPass,
                           d: Delims, reg: Registry)
    requires name != ""
    requires AbsentBefore(view, d.left, |view|)
    requires forall ctx :: conds(view, ctx) == view
    ensures Render(name, view, data, templateData, [], stack, blocks, escape, conds, d, reg) == Rendered(view)
  {
    NoBlocksUnchanged(view, d, 0, stack, blocks);
    assert view[0..] == view;
    var ps := Scan(view, d, 0);
    ScanNoLeft(view, d, 0);
    NoRegions(ps, 0);
    ScanCovers(view, d, 0);
    var all := SanitizeAll(Merge(templateData, data), escape);
    DataPassNoTags(all, view, d, conds, reg);
  }

  /** With no data and no plugins, and a conditional pass that leaves text
      alone, rendering only removes the `noparse` tags, keeping their bodies,
      provided the template never spells the start of a placeholder. */
  lemma NoDataOnlyUnwraps(name: string, view: string, stack: seq<string>, blocks: map<string, string>,
                          escape: string -> string, conds: CondPass, d: Delims, reg: Registry)
    requires name != ""
    requires forall s :: conds(s, []) == s
    requires MarkerFree(Stripped(Scan(Expand(BlockScan(view, d, 0), stack, blocks), d, 0)))
    ensures Render(name, view, [], [], [], stack, blocks, escape, conds, d, reg) ==
              Rendered(Stripped(Scan(Expand(BlockScan(view, d, 0), stack, blocks), d, 0)))
  {
    var loaded := Expand(BlockScan(view, d, 0), stack, blocks);
    assert SanitizeAll(Merge([], []), escape) == [];
    RoundTrip(loaded, d);
  }

  /** One region of the extraction loop: its placeholder goes out and its
      entry into the table. */
  lemma ExtractRegionStep(ps: seq<Piece>, out: string, table: Dict<string>)
    requires ps != [] && ps[0].Region?
    ensures (out + Placeholder(|table|)) + Extracted(ps[1..], |table| + 1) == out + Extracted(ps, |table|)
    ensures (table + [(Placeholder(|table|), ps[0].body)]) + Table(ps[1..], |table| + 1) == table + Table(ps, |table|)
  {
    var k := |table|;
    ExtractedRegion(ps, k);
    Concat3(out, Placeholder(k), Extracted(ps[1..], k + 1));
    Concat3(table, [(Placeholder(k), ps[0].body)], Table(ps[1..], k + 1));
  }

  /** One character of the extraction loop: it goes out as it is. */
  lemma ExtractPlainStep(ps: seq<Piece>, out: string, table: Dict<string>)
    requires ps != [] && ps[0].Plain?
    ensures (out + [ps[0].c]) + Extracted(ps[1..], |table|) == out + Extracted(ps, |table|)
    ensures table + Table(ps[1..], |table|) == table + Table(ps, |table|)
  {
    ExtractedPlain(ps, |table|);
  }

  /** Entry `n` of a row contributes its own pairs ahead of the later entries'. */
  lemma RowEntryStep(row: Dict<Value>, n: nat)
    requires n < |row|
    ensures PrefixEntries("", Arr(row), n) ==
      (if row[n].1.Arr? then PrefixLeaves(row[n].0 + ".", row[n].1) + PrefixLeaves(row[n].0 + "->", row[n].1)
       else Leaves(row[n].0, row[n].1)) + PrefixEntries("", Arr(row), n + 1)
  {
    assert "" + row[n].0 == row[n].0;
  }

  /** Substituting `a + b`: `a` first, then `b` on its result, unless `a` fails. */
  lemma ApplyThen(a: seq<(string, Value)>, b: seq<(string, Value)>, t: string, d: Delims, reg: Registry)
    ensures ApplyLeaves(a, t, d, reg).Err? ==> ApplyLeaves(a + b, t, d, reg) == ApplyLeaves(a, t, d, reg)
    ensures ApplyLeaves(a, t, d, reg).Ok? ==> ApplyLeaves(a + b, t, d, reg) == ApplyLeaves(b, ApplyLeaves(a, t, d, reg).value, d, reg)
  {
    ApplyLeavesAppend(a, b, t, d, reg);
  }

  /** One piece of the block loop: a character goes out as it is, a region
      as its replacement. */
  lemma ExpandStep(ps: seq<BlockPiece>, r: string, stack: seq<string>, blocks: map<string, string>)
    requires ps != []
    ensures var head := if ps[0].Char? then [ps[0].c] else Replacement(ps[0].name, stack, blocks);
      (r + head) + Expand(ps[1..], stack, blocks) == r + Expand(ps, stack, blocks)
  {
  }

  class Parser {
    /** The filter registry, keyed by filter name. */
    var filters: Registry
    /** The recorded text of each block. */
    var blocks: map<string, string>
    /** The names of the blocks being recorded, innermost last. */
    var blockStack: seq<string>
    /** Data assigned ahead of rendering. */
    var templateData: Dict<Value>
    /** The plugins, keyed by name, in registration order. */
    var plugins: Dict<PluginFn>
    var cacheEnabled: bool
    /** The tag delimiters, which the parent class owns. */
    const delims: Delims

    /** The data and the plugins are PHP arrays: no key twice. */
    predicate Valid()
      reads this
    {
      UniqueKeys(templateData) && UniqueKeys(plugins)
    }

    /** The built-in filters, no data, plugins or blocks, caching on. */
    constructor (lib: Library)
      ensures Valid()
      ensures filters == Builtins(lib) && blocks == map[] && blockStack == []
      ensures templateData == [] && plugins == [] && cacheEnabled && delims == DefaultDelims
    {
      filters := Builtins(lib);
      blocks := map[];
      blockStack := [];
      templateData := [];
      plugins := [];
      cacheEnabled := true;
      delims := DefaultDelims;
    }

    // -------------------------------------------------------------------
    // Setters

    /** `set_data`: merge new data over the assigned data. */
    method SetData(data: Dict<Value>)
      requires Valid() && UniqueKeys(data)
      modifies this
      ensures Valid()
      ensures templateData == Merge(old(templateData), data)
      ensures forall q :: Lookup(templateData, q) == if q in Keys(data) then Lookup(data, q) else Lookup(old(templateData), q)
      ensures filters == old(filters) && plugins == old(plugins) && cacheEnabled == old(cacheEnabled)
      ensures blocks == old(blocks) && blockStack == old(blockStack)
    {
      MergeUnique(templateData, data);
      forall q {
        MergeLookup(templateData, data, q);
      }
      templateData := Merge(templateData, data);
    }

    /** `assign`: one key takes a value; the rest of the data stays. */
    method Assign(key: string, value: Value)
      requires Valid()
      modifies this
      ensures Valid()
      ensures templateData == Put(old(templateData), key, value)
      ensures forall q :: Lookup(templateData, q) == if q == key then Some(value) else Lookup(old(templateData), q)
      ensures filters == old(filters) && plugins == old(plugins) && cacheEnabled == old(cacheEnabled)
      ensures blocks == old(blocks) && blockStack == old(blockStack)
    {
      PutUnique(templateData, key, value);
      forall q {
        PutLookup(templateData, key, value, q);
      }
      templateData := Put(templateData, key, value);
    }

    /** `add_filter`: a callable registers under its name, replacing any
      filter of that name; anything else is ignored. */
    method AddFilter(name: string, callback: Option<FilterFn>)
      requires Valid()
      modifies this
      ensures Valid()
      ensures filters == if callback.Some? then old(filters)[name := callback.value] else old(filters)
      ensures templateData == old(templateData) && plugins == old(plugins) && cacheEnabled == old(cacheEnabled)
      ensures blocks == old(blocks) && blockStack == old(blockStack)
    {
      if callback.Some? {
        filters := filters[name := callback.value];
      }
    }

    /** `register_plugin`: a callable registers under its name; a new name
      runs after the plugins already registered, a known one keeps its turn. */
    method RegisterPlugin(name: string, callback: Option<PluginFn>)
      requires Valid()
      modifies this
      ensures Valid()
      ensures plugins == if callback.Some? then Put(old(plugins), name, callback.value) else old(plugins)
      ensures Keys(plugins) == if callback.Some? && name !in Keys(old(plugins)) then Keys(old(plugins)) + [name] else Keys(old(plugins))
      ensures filters == old(filters) && templateData == old(templateData) && cacheEnabled == old(cacheEnabled)
      ensures blocks == old(blocks) && blockStack == old(blockStack)
    {
      if callback.Some? {
        PutUnique(plugins, name, callback.value);
        PutKeys(plugins, name, callback.value);
        plugins := Put(plugins, name, callback.value);
      }
    }

    /** `enable_cache`. */
    method EnableCache(enabled: bool)
      requires Valid()
      modifies this
      ensures Valid()
      ensures cacheEnabled == enabled
      ensures filters == old(filters) && templateData == old(templateData) && plugins == old(plugins)
      ensures blocks == old(blocks) && blockStack == old(blockStack)
    {
      cacheEnabled := enabled;
    }

    /** `_start_block`: the block goes on the stack while its text is captured. */
    method StartBlock(name: string)
      requires Valid()
      modifies this
      ensures Valid()
      ensures blockStack == old(blockStack) + [name]
      ensures filters == old(filters) && templateData == old(templateData) && plugins == old(plugins)
      ensures blocks == old(blocks) && cacheEnabled == old(cacheEnabled)
    {
      blockStack := blockStack + [name];
    }

    /** `_end_block`: the innermost block comes off the stack and records the
      captured text; with an empty stack the popped name is null, which as an
      array key is the empty string. */
    method EndBlock(captured: string)
      requires Valid()
      modifies this
      ensures Valid()
      ensures old(blockStack) != [] ==>
                var last := old(blockStack)[|old(blockStack)| - 1];
                blockStack + [last] == old(blockStack) && blocks == old(blocks)[last := captured]
      ensures old(blockStack) == [] ==> blockStack == [] && blocks == old(blocks)["" := captured]
      ensures filters == old(filters) && templateData == old(templateData) && plugins == old(plugins)
      ensures cacheEnabled == old(cacheEnabled)
    {
      var name := "";
      if |blockStack| > 0 {
        name := blockStack[|blockStack| - 1];
        blockStack := blockStack[..|blockStack| - 1];
      }
      blocks := blocks[name := captured];
    }

    // -------------------------------------------------------------------
    // Lookups and filters

    /** `_get_block`. */
    method GetBlock(name: string) returns (r: string)
      ensures name in blocks ==> r == blocks[name]
      ensures name !in blocks ==> r == ""
    {
      r := if name in blocks then blocks[name] else "";
    }

    /** `get_value`: the key's path walked through the data. */
    method GetValue(key: string, data: Dict<Value>) returns (v: Value)
      ensures v == Resolve(key, data)
    {
      var keys := SplitPath(key);
      v := Arr(data);
      var n := 0;
      while n < |keys|
        invariant n <= |keys|
        invariant Walk(Arr(data), keys) == Walk(v, keys[n..])
      {
        assert keys[n..][0] == keys[n] && keys[n..][1..] == keys[n + 1..];
        if v.Arr? && IsSet(v.entries, keys[n]) {
          v := Lookup(v.entries, keys[n]).value;
        } else {
          return Null;
        }
        n := n + 1;
      }
    }

    /** `apply_filters`: the filter specifications applied left to right. */
    method ApplyFilters(value: Value, specs: seq<string>) returns (r: Result<Value, Failure>)
      ensures r == Pipeline(value, specs, filters)
    {
      var v := value;
      var n := 0;
      while n < |specs|
        invariant n <= |specs|
        invariant Pipeline(value, specs, filters) == Pipeline(v, specs[n..], filters)
      {
        assert specs[n..][0] == specs[n] && specs[n..][1..] == specs[n + 1..];
        var spec := ParseSpec(specs[n]);
        if spec.name in filters {
          var out := filters[spec.name](v, spec.params);
          if out.Err? {
            return Err(out.error);
          }
          v := out.value;
        }
        n := n + 1;
      }
      return Ok(v);
    }

    /** `apply_plugins`. */
    method ApplyPlugins(t: string, data: Dict<Value>) returns (r: string)
      ensures r == RunPlugins(plugins, t, data)
    {
      r := t;
      var n := 0;
      while n < |plugins|
        invariant n <= |plugins|
        invariant RunPlugins(plugins, t, data) == RunPlugins(plugins[n..], r, data)
      {
        assert plugins[n..][0] == plugins[n] && plugins[n..][1..] == plugins[n + 1..];
        r := plugins[n].1(r, data);
        n := n + 1;
      }
    }

    // -------------------------------------------------------------------
    // Protected regions

    /** `_extract_noparse`: each `noparse` region, leftmost first, is replaced
      by a numbered placeholder, and the table maps each placeholder to the
      region's body. */
    method ExtractNoparse(t: string) returns (out: string, table: Dict<string>)
      ensures out == Extracted(Scan(t, delims, 0), 0)
      ensures table == Table(Scan(t, delims, 0), 0)
    {
      out, table := "", [];
      var i := 0;
      while i < |t|
        invariant i <= |t|
        invariant out + Extracted(Scan(t, delims, i), |table|) == Extracted(Scan(t, delims, 0), 0)
        invariant table + Table(Scan(t, delims, i), |table|) == Table(Scan(t, delims, 0), 0)
        decreases |t| - i
      {
        var m := PairAt(t, i, NoparseOpen(delims), NoparseClose(delims));
        ghost var ps := Scan(t, delims, i);
        if m.Some? {
          var key := Placeholder(|table|);
          var body := t[m.value.bodyStart..m.value.bodyEnd];
          ScanAt(t, delims, i);
          ExtractRegionStep(ps, out, table);
          out := out + key;
          table := table + [(key, body)];
          i := m.value.end;
        } else {
          ScanAt(t, delims, i);
          ExtractPlainStep(ps, out, table);
          out := out + [t[i]];
          i := i + 1;
        }
      }
      assert out + "" == out && table + [] == table;
    }

    /** `_restore_noparse`: each placeholder, in table order, replaced by its text. */
    method RestoreNoparse(t: string, table: Dict<string>) returns (r: string)
      ensures r == RestoreAll(t, table)
    {
      r := t;
      var n := 0;
      while n < |table|
        invariant n <= |table|
        invariant RestoreAll(t, table) == RestoreAll(r, table[n..])
      {
        assert table[n..][0] == table[n] && table[n..][1..] == table[n + 1..];
        r := ReplaceAll(r, table[n].0, table[n].1);
        n := n + 1;
      }
    }

    // -------------------------------------------------------------------
    // Variables and rows

    /** `_parse_single`: a scalar substitutes its tags; an array recurses into
      `key.prop` and then `key->prop` for each entry. */
    method ParseSingle(key: string, val: Value, s: string) returns (r: Result<string, Failure>)
      ensures r == ApplyLeaves(Leaves(key, val), s, delims, filters)
      decreases val
    {
      if !val.Arr? {
        return Substitute(s, delims, key, val, filters);
      }
      var cur := s;
      var n := 0;
      while n < |val.entries|
        invariant n <= |val.entries|
        invariant ApplyLeaves(Leaves(key, val), s, delims, filters) == ApplyLeaves(EntryLeaves(key, val, n), cur, delims, filters)
      {
        var (prop, value) := val.entries[n];
        ghost var la, lb, rest := Leaves(key + "." + prop, value), Leaves(key + "->" + prop, value), EntryLeaves(key, val, n + 1);
        assert EntryLeaves(key, val, n) == la + (lb + rest);
        ApplyLeavesAppend(la, lb + rest, cur, delims, filters);
        var r1 := ParseSingle(key + "." + prop, value, cur);
        if r1.Err? {
          return r1;
        }
        ApplyLeavesAppend(lb, rest, r1.value, delims, filters);
        var r2 := ParseSingle(key + "->" + prop, value, r1.value);
        if r2.Err? {
          return r2;
        }
        cur := r2.value;
        n := n + 1;
      }
      return Ok(cur);
    }

    /** `_parse_row_with_key`: every entry of `row` under `prefix`. */
    method ParseRowWithKey(prefix: string, row: Value, t: string) returns (r: Result<string, Failure>)
      ensures r == ApplyLeaves(PrefixLeaves(prefix, row), t, delims, filters)
      decreases row
    {
      if !row.Arr? {
        return Ok(t);
      }
      var cur := t;
      var n := 0;
      while n < |row.entries|
        invariant n <= |row.entries|
        invariant ApplyLeaves(PrefixLeaves(prefix, row), t, delims, filters) == ApplyLeaves(PrefixEntries(prefix, row, n), cur, delims, filters)
      {
        var (k, v) := row.entries[n];
        var full := prefix + k;
        ghost var rest := PrefixEntries(prefix, row, n + 1);
        if v.Arr? {
          ghost var la, lb := PrefixLeaves(full + ".", v), PrefixLeaves(full + "->", v);
          assert PrefixEntries(prefix, row, n) == la + (lb + rest);
          ApplyLeavesAppend(la, lb + rest, cur, delims, filters);
          var r1 := ParseRowWithKey(full + ".", v, cur);
          if r1.Err? {
            return r1;
          }
          ApplyLeavesAppend(lb, rest, r1.value, delims, filters);
          var r2 := ParseRowWithKey(full + "->", v, r1.value);
          if r2.Err? {
            return r2;
          }
          cur := r2.value;
        } else {
          assert PrefixEntries(prefix, row, n) == Leaves(full, v) + rest;
          ApplyLeavesAppend(Leaves(full, v), rest, cur, delims, filters);
          var r1 := ParseSingle(full, v, cur);
          if r1.Err? {
            return r1;
          }
          cur := r1.value;
        }
        n := n + 1;
      }
      return Ok(cur);
    }

    /** `_parse_row`: a scalar entry substitutes its key; an array entry is
      parsed under `key.` and then under `key->`. */
    method ParseRow(row: Dict<Value>, t: string) returns (r: Result<string, Failure>)
      ensures r == ApplyLeaves(RowLeaves(row), t, delims, filters)
    {
      ghost var whole := Arr(row);
      var cur := t;
      var n := 0;
      while n < |row|
        invariant n <= |row|
        invariant ApplyLeaves(RowLeaves(row), t, delims, filters) == ApplyLeaves(PrefixEntries("", whole, n), cur, delims, filters)
      {
        var key, val := row[n].0, row[n].1;
        ghost var rest := PrefixEntries("", whole, n + 1);
        RowEntryStep(row, n);
        if val.Arr? {
          ghost var la, lb := PrefixLeaves(key + ".", val), PrefixLeaves(key + "->", val);
          Concat3(la, lb, rest);
          ApplyThen(la, lb + rest, cur, delims, filters);
          var r1 := ParseRowWithKey(key + ".", val, cur);
          if r1.Err? {
            return r1;
          }
          ApplyThen(lb, rest, r1.value, delims, filters);
          var r2 := ParseRowWithKey(key + "->", val, r1.value);
          if r2.Err? {
            return r2;
          }
          cur := r2.value;
        } else {
          ApplyThen(Leaves(key, val), rest, cur, delims, filters);
          var r1 := ParseSingle(key, val, cur);
          if r1.Err? {
            return r1;
          }
          cur := r1.value;
        }
        n := n + 1;
      }
      return Ok(cur);
    }

    // -------------------------------------------------------------------
    // Loops

    /** `_process_pair_body`: the body rendered once per row and concatenated.
      The final rewrite of the loop variable by itself changes no text and is
      not repeated here. */
    method ProcessPairBody(data: Value, body: string, lv: Option<string>, conds: CondPass) returns (r: Result<string, Failure>)
      ensures r == PairBody(data, body, lv, conds, delims, filters)
    {
      var str := "";
      if data.Arr? {
        var index := 0;
        assert data.entries[0..] == data.entries;
        ghost var render := Renderer(body, lv, conds, delims, filters);
        ghost var all := RenderRows(data.entries, 0, render);
        assert all.Ok? ==> "" + all.value == all.value;
        while index < |data.entries|
          invariant index <= |data.entries|
          invariant PairBody(data, body, lv, conds, delims, filters) ==
                      Prefixed(str, RenderRows(data.entries[index..], index, render))
        {
          var row := data.entries[index].1;
          var rowExtra := Merge(Counters(index), RowArray(row));
          if lv.Some? {
            rowExtra := [(lv.value, Arr(rowExtra))];
          }
          var temp := conds(body, rowExtra);
          var parsed := ParseRow(rowExtra, temp);
          assert data.entries[index..][0].1 == row && data.entries[index..][1..] == data.entries[index + 1..];
          if parsed.Err? {
            return Err(parsed.error);
          }
          assert render(index, row) == parsed;
          PrefixedTwice(str, parsed.value, RenderRows(data.entries[index + 1..], index + 1, render));
          str := str + parsed.value;
          index := index + 1;
        }
        assert data.entries[index..] == [] && str + "" == str;
      }
      return Ok(str);
    }

    /** `_parse_pair`: the first loop over `variable`, in the newer form if
      the text holds one and in the legacy form otherwise, replaced by its
      rendered rows. */
    method ParsePair(variable: string, data: Value, t: string, conds: CondPass) returns (r: Result<string, Failure>)
      ensures r == ParsePairSpec(variable, data, t, delims, conds, filters)
    {
      var m := FirstPair(t, 0, LoopOpen(delims, variable), LoopClose(delims, variable));
      if m.Some? {
        var result := ProcessPairBody(data, t[m.value.bodyStart..m.value.bodyEnd], Some(m.value.caps[0]), conds);
        if result.Err? {
          return Err(result.error);
        }
        return Ok(t[..m.value.start] + result.value + t[m.value.end..]);
      }
      m := FirstPair(t, 0, LegacyOpen(delims, variable), LegacyClose(delims, variable));
      if m.Some? {
        var result := ProcessPairBody(data, t[m.value.bodyStart..m.value.bodyEnd], None, conds);
        if result.Err? {
          return Err(result.error);
        }
        return Ok(t[..m.value.start] + result.value + t[m.value.end..]);
      }
      return Ok(t);
    }

    /** The pass over the data in `parse`: loops for array values, tags for
      the others, key by key. */
    method SubstituteData(data: Dict<Value>, t: string, conds: CondPass) returns (r: Result<string, Failure>)
      ensures r == DataPass(data, t, delims, conds, filters)
    {
      var cur := t;
      var n := 0;
      while n < |data|
        invariant n <= |data|
        invariant DataPass(data, t, delims, conds, filters) == DataPass(data[n..], cur, delims, conds, filters)
      {
        assert data[n..][0] == data[n] && data[n..][1..] == data[n + 1..];
        var (key, val) := data[n];
        var step: Result<string, Failure>;
        if val.Arr? {
          step := ParsePair(key, val, cur, conds);
        } else {
          step := ParseSingle(key, val, cur);
          assert Leaves(key, val) == [(key, val)];
        }
        if step.Err? {
          return Err(step.error);
        }
        cur := step.value;
        n := n + 1;
      }
      return Ok(cur);
    }

    // -------------------------------------------------------------------
    // Blocks and the whole render

    /** `_parse_blocks`: every block region replaced by its recorded text,
      or by nothing while its block is on the stack. */
    method ParseBlocks(t: string) returns (r: string)
      ensures r == Expand(BlockScan(t, delims, 0), blockStack, blocks)
    {
      r := "";
      var i := 0;
      while i < |t|
        invariant i <= |t|
        invariant r + Expand(BlockScan(t, delims, i), blockStack, blocks) == Expand(BlockScan(t, delims, 0), blockStack, blocks)
        decreases |t| - i
      {
        var m := PairAt(t, i, BlockOpen(delims), BlockClose(delims));
        ghost var ps := BlockScan(t, delims, i);
        if m.Some? {
          var name := m.value.caps[0];
          var replacement := "";
          if name !in blockStack {
            replacement := GetBlock(name);
          }
          assert ps[0] == Block(name, t[i..m.value.end]);
          assert ps[1..] == BlockScan(t, delims, m.value.end);
          ExpandStep(ps, r, blockStack, blocks);
          r := r + replacement;
          i := m.value.end;
        } else {
          assert ps[0] == Char(t[i]);
          assert ps[1..] == BlockScan(t, delims, i + 1);
          ExpandStep(ps, r, blockStack, blocks);
          r := r + [t[i]];
          i := i + 1;
        }
      }
      assert r + "" == r;
    }

    /** `parse(name, data, TRUE)`, given the text the view `name` loads as:
      blocks expanded, protected regions set aside, the data substituted,
      plugins and the conditional pass run, and the regions put back. */
    method Parse(name: string, view: string, data: Dict<Value>, escape: string -> string, conds: CondPass) returns (r: Outcome)
      ensures r == Render(name, view, data, templateData, plugins, blockStack, blocks, escape, conds, delims, filters)
    {
      if name == "" {
        return Rejected;
      }
      var all := Merge(templateData, data);
      all := SanitizeAll(all, escape);
      var content := ParseBlocks(view);
      var noParse;
      content, noParse := ExtractNoparse(content);
      var pass := SubstituteData(all, content, conds);
      if pass.Err? {
        return Failed(pass.error);
      }
      content := ApplyPlugins(pass.value, all);
      content := conds(content, all);
      content := RestoreNoparse(content, noParse);
      return Rendered(content);
    }
  }
}
