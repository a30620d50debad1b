/** Variable substitution: the scalar branch of `_parse_single`, which
    replaces every tag `L key [| filters] R` by the value run through the
    tag's filters, and the flattening of nested arrays into dotted and arrow
    keys done by `_parse_single`, `_parse_row` and `_parse_row_with_key`. */
module Substitution {
  import opened Wrappers
  import opened Text
  import opened Values
  import opened Filters
  import opened Lexer

  /** The filter specifications a tag carries: none without a bar, otherwise
      its filter list split on bars. */
  function FilterList(f: Option<string>): seq<string> {
    match f
    case None => []
    case Some(s) => Split(s, "|")
  }

  /** Every tag of `key` in `t`, taken left to right without overlap, replaced
      by the string of the value after the tag's filters; the first filter
      error ends the substitution. */
  function Substitute(t: string, d: Delims, key: string, val: Value, reg: Registry): Result<string, Failure>
    decreases |t|
  {
    if t == [] then Ok("")
    else
      match VarTagAt(t, 0, d, key)
      case Some(tag) =>
        var v :- Pipeline(val, FilterList(tag.filters), reg);
        var rest :- Substitute(t[tag.end..], d, key, val, reg);
        Ok(ToStr(v) + rest)
      case None =>
        var rest :- Substitute(t[1..], d, key, val, reg);
        Ok([t[0]] + rest)
  }

  /** A text without the left delimiter contains no tag and is left unchanged. */
  lemma {:induction false} SubstituteNoLeft(t: string, d: Delims, key: string, val: Value, reg: Registry)
    requires AbsentBefore(t, d.left, |t|)
    ensures Substitute(t, d, key, val, reg) == Ok(t)
    decreases |t|
  {
    if t != [] {
      assert VarTagAt(t, 0, d, key).None?;
      forall j | 0 <= j < |t[1..]| ensures !OccursAt(t[1..], d.left, j) {
        assert !OccursAt(t, d.left, j + 1);
        if j + |d.left| <= |t[1..]| {
          assert t[1..][j..j + |d.left|] == t[j + 1..j + 1 + |d.left|];
        }
      }
      SubstituteNoLeft(t[1..], d, key, val, reg);
      assert [t[0]] + t[1..] == t;
    }
  }

  /** A plain tag `L key R` is replaced by the value's string, and the
      substitution goes on after it. The key must not start with a space, and
      the right delimiter must start with neither a space nor a bar, so that
      the tag is read the same way whatever follows it. */
  lemma SingleTag(d: Delims, key: string, rest: string, val: Value, reg: Registry)
    requires |key| > 0 && !IsSpace(key[0])
    requires !IsSpace(d.right[0]) && d.right[0] != '|'
    ensures Substitute(d.left + key + d.right + rest, d, key, val, reg) ==
              match Substitute(rest, d, key, val, reg)
              case Ok(r) => Ok(ToStr(val) + r)
              case Err(e) => Err(e)
  {
    var t := d.left + key + d.right + rest;
    SingleTagAt(d, key, rest);
    assert t != [];
    assert FilterList(None) == [];
  }

  /** Where the tag `L key R` ends, and that it is read without a list. */
  lemma SingleTagAt(d: Delims, key: string, rest: string)
    requires |key| > 0 && !IsSpace(key[0])
    requires !IsSpace(d.right[0]) && d.right[0] != '|'
    ensures var t := d.left + key + d.right + rest;
      var end := |d.left| + |key| + |d.right|;
      && end <= |t| && VarTagAt(t, 0, d, key) == Some(VarTag(end, None)) && t[end..] == rest
  {
    var l, rr := d.left, d.right;
    var t := l + key + rr + rest;
    var p := |l| + |key|;
    assert t[..|l|] == l;
    assert t[|l|] == key[0];
    SkipRun(t, |l|, |l|, IsSpace);
    assert t[|l|..p] == key;
    assert t[p] == rr[0];
    SkipRun(t, p, p, IsSpace);
    KeyHead(t, l, key, p);
    assert t[p..p + |rr|] == rr;
    BareTag(t, 0, d, key, p);
    assert t[p + |rr|..] == rest;
  }

  /** The head `L \s* key \s*` of a tag written without spaces. */
  lemma KeyHead(t: string, l: string, key: string, p: nat)
    requires p == |l| + |key| <= |t|
    requires t[..|l|] == l && t[|l|..p] == key
    requires SkipWhile(t, |l|, IsSpace) == |l| && SkipWhile(t, p, IsSpace) == p
    ensures MatchAtoms(t, 0, [Lit(l), Spaces, Lit(key), Spaces]) == Some(Hit(p, []))
  {
    var a := [Lit(l), Spaces, Lit(key), Spaces];
    assert a[1..] == [Spaces, Lit(key), Spaces];
    assert a[1..][1..] == [Lit(key), Spaces];
    assert a[1..][1..][1..] == [Spaces];
    assert [Spaces][1..] == [];
    assert MatchAtoms(t, p, [Spaces]) == Some(Hit(p, []));
    assert OccursAt(t, key, |l|);
    assert MatchAtoms(t, |l|, [Lit(key), Spaces]) == Some(Hit(p, []));
    assert MatchAtoms(t, |l|, [Spaces, Lit(key), Spaces]) == Some(Hit(p, []));
    assert OccursAt(t, l, 0);
  }

  /** A run of characters of one class ends where the class ends. */
  lemma {:induction false} SkipRun(t: string, i: nat, j: nat, p: char -> bool)
    requires i <= j <= |t|
    requires forall k :: i <= k < j ==> p(t[k])
    requires j == |t| || !p(t[j])
    ensures SkipWhile(t, i, p) == j
    decreases j - i
  {
    if i < j {
      SkipRun(t, i + 1, j, p);
    }
  }

  /** A tag with a filter list, `L key|list R`, is replaced by the value run
      through the filters of the list, split on bars, in order. The list must
      be made of filter characters and start with a non-space, and the right
      delimiter must start with a character that cannot continue the list. */
  lemma FilteredTag(d: Delims, key: string, list: string, rest: string, val: Value, reg: Registry)
    requires |key| > 0 && !IsSpace(key[0])
    requires |list| > 0 && !IsSpace(list[0]) && forall c :: c in list ==> IsFilterChar(c)
    requires !IsFilterChar(d.right[0])
    ensures Substitute(d.left + key + "|" + list + d.right + rest, d, key, val, reg) ==
              match Pipeline(val, Split(list, "|"), reg)
              case Err(e) => Err(e)
              case Ok(v) =>
                match Substitute(rest, d, key, val, reg)
                case Ok(r) => Ok(ToStr(v) + r)
                case Err(e) => Err(e)
  {
    var t := d.left + key + "|" + list + d.right + rest;
    FilteredTagAt(d, key, list, rest);
    assert t != [];
    assert FilterList(Some(list)) == Split(list, "|");
  }

  /** Where the tag `L key|list R` ends, and that it is read with its list. */
  lemma FilteredTagAt(d: Delims, key: string, list: string, rest: string)
    requires |key| > 0 && !IsSpace(key[0])
    requires |list| > 0 && !IsSpace(list[0]) && forall c :: c in list ==> IsFilterChar(c)
    requires !IsFilterChar(d.right[0])
    ensures var t := d.left + key + "|" + list + d.right + rest;
      var end := |d.left| + |key| + 1 + |list| + |d.right|;
      && end <= |t| && VarTagAt(t, 0, d, key) == Some(VarTag(end, Some(list))) && t[end..] == rest
  {
    var l, rr := d.left, d.right;
    var t := l + key + "|" + list + rr + rest;
    var p := |l| + |key|;
    var q := p + 1;
    var e := q + |list|;
    assert t[..|l|] == l;
    assert t[|l|] == key[0];
    SkipRun(t, |l|, |l|, IsSpace);
    assert t[|l|..p] == key;
    KeyHead(t, l, key, p);
    assert t[p] == '|';
    assert t[q] == list[0];
    SkipRun(t, q, q, IsSpace);
    assert t[q..e] == list;
    assert t[e] == rr[0];
    FilterRun(t, q, list);
    assert t[e..e + |rr|] == rr;
    ListTag(t, 0, d, key, p, q, e);
    assert t[e + |rr|..] == rest;
  }

  /** A run of filter characters followed by one that is not ends there. */
  lemma FilterRun(t: string, q: nat, list: string)
    requires q + |list| < |t| && t[q..q + |list|] == list
    requires forall c :: c in list ==> IsFilterChar(c)
    requires !IsFilterChar(t[q + |list|])
    ensures SkipWhile(t, q, IsFilterChar) == q + |list|
  {
    forall k | q <= k < q + |list| ensures IsFilterChar(t[k]) {
      assert t[k] == list[k - q];
    }
    SkipRun(t, q, q + |list|, IsFilterChar);
  }

  // ---------------------------------------------------------------------
  // Flattening nested arrays

  /** The (key, scalar) pairs `_parse_single` substitutes for `key` and `val`,
      in its order: a scalar is its own pair; for an array, each entry
      `prop => v` gives the pairs of `key.prop` and then those of `key->prop`. */
  function Leaves(key: string, val: Value): seq<(string, Value)>
    decreases val, 1, 0
  {
    if val.Arr? then EntryLeaves(key, val, 0) else [(key, val)]
  }

  /** The pairs of the entries of the array `val` from entry `n` on. */
  function EntryLeaves(key: string, val: Value, n: nat): seq<(string, Value)>
    requires val.Arr? && n <= |val.entries|
    decreases val, 0, |val.entries| - n
  {
    if n == |val.entries| then []
    else
      var (prop, v) := val.entries[n];
      Leaves(key + "." + prop, v) + Leaves(key + "->" + prop, v) + EntryLeaves(key, val, n + 1)
  }

  /** Substituting a list of pairs one after the other. */
  function ApplyLeaves(ls: seq<(string, Value)>, t: string, d: Delims, reg: Registry): Result<string, Failure>
    decreases |ls|
  {
    if ls == [] then Ok(t)
    else
      var t1 :- Substitute(t, d, ls[0].0, ls[0].1, reg);
      ApplyLeaves(ls[1..], t1, d, reg)
  }

  /** Substituting two lists of pairs in a row is substituting their concatenation. */
  lemma {:induction false} ApplyLeavesAppend(a: seq<(string, Value)>, b: seq<(string, Value)>, t: string, d: Delims, reg: Registry)
    ensures ApplyLeaves(a + b, t, d, reg) ==
              match ApplyLeaves(a, t, d, reg)
              case Ok(t1) => ApplyLeaves(b, t1, d, reg)
              case Err(e) => Err(e)
    decreases |a|
  {
    if a == [] {
      assert a + b == b;
    } else {
      assert (a + b)[0] == a[0] && (a + b)[1..] == a[1..] + b;
      match Substitute(t, d, a[0].0, a[0].1, reg)
      case Ok(t1) => ApplyLeavesAppend(a[1..], b, t1, d, reg);
      case Err(_) =>
    }
  }

  /** A text without the left delimiter is left unchanged by any pairs. */
  lemma {:induction false} ApplyLeavesNoLeft(ls: seq<(string, Value)>, t: string, d: Delims, reg: Registry)
    requires AbsentBefore(t, d.left, |t|)
    ensures ApplyLeaves(ls, t, d, reg) == Ok(t)
    decreases |ls|
  {
    if ls != [] {
      SubstituteNoLeft(t, d, ls[0].0, ls[0].1, reg);
      ApplyLeavesNoLeft(ls[1..], t, d, reg);
    }
  }

  /** Only scalars are substituted, and every key extends the starting key. */
  lemma {:induction false} LeavesAreScalars(key: string, val: Value)
    ensures forall n :: 0 <= n < |Leaves(key, val)| ==>
              !Leaves(key, val)[n].1.Arr? && key <= Leaves(key, val)[n].0
    decreases val, 1, 0
  {
    if val.Arr? {
      EntryLeavesAreScalars(key, val, 0);
    }
  }

  lemma {:induction false} EntryLeavesAreScalars(key: string, val: Value, n: nat)
    requires val.Arr? && n <= |val.entries|
    ensures forall m :: 0 <= m < |EntryLeaves(key, val, n)| ==>
              !EntryLeaves(key, val, n)[m].1.Arr? && key <= EntryLeaves(key, val, n)[m].0
    decreases val, 0, |val.entries| - n
  {
    if n < |val.entries| {
      var (prop, v) := val.entries[n];
      var a, b := Leaves(key + "." + prop, v), Leaves(key + "->" + prop, v);
      LeavesAreScalars(key + "." + prop, v);
      LeavesAreScalars(key + "->" + prop, v);
      EntryLeavesAreScalars(key, val, n + 1);
      var c := EntryLeaves(key, val, n + 1);
      assert EntryLeaves(key, val, n) == a + b + c;
      forall m | 0 <= m < |a + b + c| ensures !(a + b + c)[m].1.Arr? && key <= (a + b + c)[m].0 {
        if m < |a| {
          assert key <= key + "." + prop <= a[m].0;
        } else if m < |a| + |b| {
          assert key <= key + "->" + prop <= b[m - |a|].0;
        } else {
          assert (a + b + c)[m] == c[m - |a| - |b|];
        }
      }
    }
  }

  /** An array of scalars yields two pairs per entry, `key.prop` and then
      `key->prop`, in entry order. */
  lemma {:induction false} FlatArrayLeaves(key: string, val: Value, n: nat)
    requires val.Arr? && n <= |val.entries|
    requires forall m :: 0 <= m < |val.entries| ==> !val.entries[m].1.Arr?
    ensures |EntryLeaves(key, val, n)| == 2 * (|val.entries| - n)
    ensures forall m :: n <= m < |val.entries| ==>
              && EntryLeaves(key, val, n)[2 * (m - n)] == (key + "." + val.entries[m].0, val.entries[m].1)
              && EntryLeaves(key, val, n)[2 * (m - n) + 1] == (key + "->" + val.entries[m].0, val.entries[m].1)
    decreases |val.entries| - n
  {
    if n < |val.entries| {
      FlatArrayLeaves(key, val, n + 1);
    }
  }

  /** The pairs `_parse_row_with_key` substitutes for `prefix` and `row`: for
      each entry `k => v`, a scalar gives `prefix k`, and an array gives all
      pairs under `prefix k.` and then all pairs under `prefix k->`; a row that
      is not an array gives none. */
  function PrefixLeaves(prefix: string, row: Value): seq<(string, Value)>
    decreases row, 1, 0
  {
    if row.Arr? then PrefixEntries(prefix, row, 0) else []
  }

  function PrefixEntries(prefix: string, row: Value, n: nat): seq<(string, Value)>
    requires row.Arr? && n <= |row.entries|
    decreases row, 0, |row.entries| - n
  {
    if n == |row.entries| then []
    else
      var (k, v) := row.entries[n];
      EntryPairs(prefix + k, v) + PrefixEntries(prefix, row, n + 1)
  }

  /** The pairs of one entry under its full key. */
  function EntryPairs(full: string, v: Value): seq<(string, Value)>
    decreases v, 2, 0
  {
    if v.Arr? then PrefixLeaves(full + ".", v) + PrefixLeaves(full + "->", v) else [(full, v)]
  }

  /** The pairs `_parse_row` substitutes for a row: those of
      `_parse_row_with_key` with an empty prefix. */
  function RowLeaves(row: Dict<Value>): seq<(string, Value)> {
    PrefixLeaves("", Arr(row))
  }

  /** The pairs `_parse_single` would substitute for each entry of a row, one
      entry after the other. */
  function SingleLeaves(row: Dict<Value>): seq<(string, Value)> {
    if row == [] then [] else Leaves(row[0].0, row[0].1) + SingleLeaves(row[1..])
  }

  /** `_parse_row_with_key` reaches the same (key, scalar) pairs as
      `_parse_single`: the order differs, because it finishes every dotted key
      of an entry before its arrow keys, but each pair occurs as often. */
  lemma {:induction false} EntryPairsSameLeaves(full: string, v: Value)
    ensures multiset(EntryPairs(full, v)) == multiset(Leaves(full, v))
    decreases v, 1
  {
    if v.Arr? {
      SplitEntriesSameLeaves(full, v, 0);
    }
  }

  lemma {:induction false} SplitEntriesSameLeaves(key: string, v: Value, n: nat)
    requires v.Arr? && n <= |v.entries|
    ensures multiset(PrefixEntries(key + ".", v, n)) + multiset(PrefixEntries(key + "->", v, n))
         == multiset(EntryLeaves(key, v, n))
    decreases v, 0, |v.entries| - n
  {
    if n < |v.entries| {
      var prop, w := v.entries[n].0, v.entries[n].1;
      EntryPairsSameLeaves(key + "." + prop, w);
      EntryPairsSameLeaves(key + "->" + prop, w);
      SplitEntriesSameLeaves(key, v, n + 1);
      assert PrefixEntries(key + ".", v, n) == EntryPairs(key + "." + prop, w) + PrefixEntries(key + ".", v, n + 1);
      assert PrefixEntries(key + "->", v, n) == EntryPairs(key + "->" + prop, w) + PrefixEntries(key + "->", v, n + 1);
      assert EntryLeaves(key, v, n) == Leaves(key + "." + prop, w) + Leaves(key + "->" + prop, w) + EntryLeaves(key, v, n + 1);
      Interleave(EntryPairs(key + "." + prop, w), PrefixEntries(key + ".", v, n + 1),
                 EntryPairs(key + "->" + prop, w), PrefixEntries(key + "->", v, n + 1),
                 Leaves(key + "." + prop, w), Leaves(key + "->" + prop, w), EntryLeaves(key, v, n + 1));
    }
  }

  /** Counting the elements of two interleaved lists. */
  lemma Interleave<T>(a: seq<T>, x: seq<T>, b: seq<T>, y: seq<T>, la: seq<T>, lb: seq<T>, e: seq<T>)
    requires multiset(a) == multiset(la) && multiset(b) == multiset(lb)
    requires multiset(x) + multiset(y) == multiset(e)
    ensures multiset(a + x) + multiset(b + y) == multiset(la + lb + e)
  {
    calc {
      multiset(a + x) + multiset(b + y);
      multiset(a) + multiset(x) + multiset(b) + multiset(y);
      multiset(la) + multiset(lb) + (multiset(x) + multiset(y));
      multiset(la + lb + e);
    }
  }

  lemma {:induction false} RowEntriesSameLeaves(row: Dict<Value>, n: nat)
    requires n <= |row|
    ensures multiset(PrefixEntries("", Arr(row), n)) == multiset(SingleLeaves(row[n..]))
    decreases |row| - n
  {
    if n < |row| {
      var (k, v) := row[n];
      assert "" + k == k;
      EntryPairsSameLeaves(k, v);
      RowEntriesSameLeaves(row, n + 1);
      assert row[n..][0] == row[n] && row[n..][1..] == row[n + 1..];
    } else {
      assert row[n..] == [];
    }
  }

  /** `_parse_row` substitutes the same (key, scalar) pairs as `_parse_single`
      applied to each entry of the row. */
  lemma RowSameLeaves(row: Dict<Value>)
    ensures multiset(RowLeaves(row)) == multiset(SingleLeaves(row))
  {
    RowEntriesSameLeaves(row, 0);
    assert row[0..] == row;
  }
}
